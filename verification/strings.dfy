/** String operations of the JavaScript runtime that the utilities rely on:
    `includes`, `replaceAll` with a string pattern, `Array.prototype.join`,
    `String.prototype.split` with a one-character separator, and the
    decimal rendering `String(n)` of an integer. */
module Strings {
  import opened Seqs

  /** `p` occurs in `s` starting at index `i`. */
  predicate MatchAt(s: string, p: string, i: nat)
  {
    i + |p| <= |s| && s[i..i + |p|] == p
  }

  /** `s.includes(p)`. */
  predicate Contains(s: string, p: string)
  {
    exists i | 0 <= i <= |s| :: MatchAt(s, p, i)
  }

  // ---------------------------------------------------------------------
  // replaceAll
  // ---------------------------------------------------------------------

  /** Number of matches `replaceAll` finds: the scan is left to right and a
      match resumes the search after its last character, so matches never
      overlap. */
  function CountMatches(s: string, p: string): nat
    requires |p| > 0
    decreases |s|
  {
    if |s| < |p| then 0
    else if s[..|p|] == p then 1 + CountMatches(s[|p|..], p)
    else CountMatches(s[1..], p)
  }

  /** Every non-overlapping match of the non-empty pattern `p` replaced by
      `r` taken literally. This is `s.replaceAll(p, r)` whenever `r` holds
      no `$` (see `JsReplaceAllLiteral`). */
  function ReplaceAll(s: string, p: string, r: string): string
    requires |p| > 0
    decreases |s|
  {
    if |s| < |p| then s
    else if s[..|p|] == p then r + ReplaceAll(s[|p|..], p, r)
    else [s[0]] + ReplaceAll(s[1..], p, r)
  }

  lemma ReplaceAllPastStart(t: string, p: string, r: string)
    requires |p| > 0 && |p| <= |t| && t[..|p|] != p
    ensures ReplaceAll(t, p, r) == [t[0]] + ReplaceAll(t[1..], p, r)
  {
  }

  /** Each match trades `|p|` characters for `|r|`. */
  lemma {:induction false} ReplaceAllLength(s: string, p: string, r: string)
    requires |p| > 0
    ensures |ReplaceAll(s, p, r)| + CountMatches(s, p) * |p| == |s| + CountMatches(s, p) * |r|
    decreases |s|
  {
    if |s| >= |p| {
      if s[..|p|] == p {
        var rest := s[|p|..];
        ReplaceAllLength(rest, p, r);
        var k := CountMatches(rest, p);
        assert CountMatches(s, p) == k + 1;
        assert |ReplaceAll(s, p, r)| == |r| + |ReplaceAll(rest, p, r)|;
        MulSucc(k, |p|);
        MulSucc(k, |r|);
      } else {
        ReplaceAllLength(s[1..], p, r);
      }
    }
  }

  lemma MulSucc(k: nat, x: nat)
    ensures (k + 1) * x == k * x + x
  {
  }

  lemma MulDistributes(k: nat, x: nat, y: nat)
    ensures k * (x + y) == k * x + k * y
  {
  }

  /** Shifting a window: a match in `s[1..]` at `i` is a match in `s` at `i + 1`. */
  lemma MatchAtTail(s: string, p: string, i: nat)
    requires |s| > 0
    ensures MatchAt(s[1..], p, i) <==> MatchAt(s, p, i + 1)
  {
    if i + 1 + |p| <= |s| {
      assert s[1..][i..i + |p|] == s[i + 1..i + 1 + |p|];
    }
  }

  /** A prefix of `s` in which no match starts is copied unchanged. */
  lemma {:induction false} ReplaceAllSkip(s: string, p: string, r: string, n: nat)
    requires |p| > 0 && n <= |s|
    requires forall i | 0 <= i < n :: !MatchAt(s, p, i)
    ensures ReplaceAll(s, p, r) == s[..n] + ReplaceAll(s[n..], p, r)
    decreases n
  {
    if n == 0 {
      assert s[n..] == s;
    } else if |s| < |p| {
      assert ReplaceAll(s[n..], p, r) == s[n..];
      assert s[..n] + s[n..] == s;
    } else {
      var tail := s[1..];
      assert s[..|p|] != p by {
        assert !MatchAt(s, p, 0);
      }
      forall i | 0 <= i < n - 1
        ensures !MatchAt(tail, p, i)
      {
        MatchAtTail(s, p, i);
      }
      ReplaceAllSkip(tail, p, r, n - 1);
      SkipStep(s, p, r, n);
    }
  }

  /** The inductive step of `ReplaceAllSkip`: one copied character in front. */
  lemma SkipStep(s: string, p: string, r: string, n: nat)
    requires |p| > 0 && 1 <= n <= |s| && |p| <= |s| && s[..|p|] != p
    requires ReplaceAll(s[1..], p, r) == s[1..][..n - 1] + ReplaceAll(s[1..][n - 1..], p, r)
    ensures ReplaceAll(s, p, r) == s[..n] + ReplaceAll(s[n..], p, r)
  {
    var tail, rest := s[1..], s[n..];
    assert tail[n - 1..] == rest;
    ReplaceAllPastStart(s, p, r);
    assert s[..n] == [s[0]] + tail[..n - 1];
    Assoc([s[0]], tail[..n - 1], ReplaceAll(rest, p, r));
  }

  /** The replacement of a match at the front. */
  lemma ReplaceAllAtMatch(b: string, p: string, r: string)
    requires |p| > 0
    ensures ReplaceAll(p + b, p, r) == r + ReplaceAll(b, p, r)
  {
    assert (p + b)[..|p|] == p;
    assert (p + b)[|p|..] == b;
  }

  /** Text in which no match starts is copied in front of the rest. */
  lemma ReplaceAllAfterPrefix(a: string, b: string, p: string, r: string)
    requires |p| > 0
    requires forall i | 0 <= i < |a| :: !MatchAt(a + b, p, i)
    ensures ReplaceAll(a + b, p, r) == a + ReplaceAll(b, p, r)
  {
    ReplaceAllSkip(a + b, p, r, |a|);
    assert (a + b)[..|a|] == a;
    assert (a + b)[|a|..] == b;
  }

  // ---------------------------------------------------------------------
  // replaceAll with replacement patterns
  // ---------------------------------------------------------------------

  /** The text JavaScript inserts for one match of a string pattern: the
      GetSubstitution operation of ECMA-262 with no capture groups. `$$`
      stands for `$`, `$&` for the match, `` $` `` for the text before it
      and `$'` for the text after it; any other `$` is copied as it is
      (`$1` and `$<` are literal when there are no groups). */
  function Substitute(r: string, matched: string, before: string, after: string): string
    decreases |r|
  {
    if |r| == 0 then ""
    else if r[0] == '$' && |r| >= 2 && r[1] == '$' then "$" + Substitute(r[2..], matched, before, after)
    else if r[0] == '$' && |r| >= 2 && r[1] == '&' then matched + Substitute(r[2..], matched, before, after)
    else if r[0] == '$' && |r| >= 2 && r[1] == '`' then before + Substitute(r[2..], matched, before, after)
    else if r[0] == '$' && |r| >= 2 && r[1] == '\'' then after + Substitute(r[2..], matched, before, after)
    else [r[0]] + Substitute(r[1..], matched, before, after)
  }

  /** The scan of `s.replaceAll(p, r)` once `before` has been consumed and
      `rest` is left (`s == before + rest`): each match found left to right
      is replaced by the expansion of `r` for that match, and the search
      resumes after it. */
  function ReplaceAllFrom(before: string, rest: string, p: string, r: string): string
    requires |p| > 0
    decreases |rest|
  {
    if |rest| < |p| then rest
    else if rest[..|p|] == p then Substitute(r, p, before, rest[|p|..]) + ReplaceAllFrom(before + p, rest[|p|..], p, r)
    else [rest[0]] + ReplaceAllFrom(before + [rest[0]], rest[1..], p, r)
  }

  /** `s.replaceAll(p, r)` for a non-empty string pattern `p`. */
  function JsReplaceAll(s: string, p: string, r: string): string
    requires |p| > 0
  {
    ReplaceAllFrom("", s, p, r)
  }

  /** A replacement that does not start with `$` starts with its first
      character. */
  lemma SubstituteStep(r: string, matched: string, before: string, after: string)
    requires |r| > 0 && r[0] != '$'
    ensures Substitute(r, matched, before, after) == [r[0]] + Substitute(r[1..], matched, before, after)
  {
  }

  /** A `$`-free start of the replacement is inserted as it is. */
  lemma {:induction false} SubstitutePrefix(a: string, b: string, matched: string, before: string, after: string)
    requires '$' !in a
    ensures Substitute(a + b, matched, before, after) == a + Substitute(b, matched, before, after)
    decreases |a|
  {
    if |a| > 0 {
      var ab, tail := a + b, a[1..];
      assert ab[0] == a[0] != '$';
      assert ab[1..] == tail + b;
      assert '$' !in tail by {
        forall j | 0 <= j < |tail| ensures tail[j] != '$' {
          assert tail[j] == a[j + 1];
        }
      }
      SubstituteStep(ab, matched, before, after);
      SubstitutePrefix(tail, b, matched, before, after);
      assert [a[0]] + (tail + Substitute(b, matched, before, after)) == a + Substitute(b, matched, before, after) by {
        assert [a[0]] + tail == a;
      }
    } else {
      assert a + b == b;
    }
  }

  /** A replacement without `$` is inserted as it is. */
  lemma SubstituteLiteral(r: string, matched: string, before: string, after: string)
    requires '$' !in r
    ensures Substitute(r, matched, before, after) == r
  {
    SubstitutePrefix(r, "", matched, before, after);
    assert r + "" == r;
  }

  /** The pattern characters: `$&` reinserts the match and `$$` is one `$`. */
  lemma SubstitutePatterns(matched: string, before: string, after: string)
    ensures Substitute("$&", matched, before, after) == matched
    ensures Substitute("$$", matched, before, after) == "$"
    ensures Substitute("$`", matched, before, after) == before
    ensures Substitute("$'", matched, before, after) == after
  {
    assert "$&"[2..] == "" && "$$"[2..] == "" && "$`"[2..] == "" && "$'"[2..] == "";
  }

  /** A string that is exactly the pattern becomes one expansion of the
      replacement, with nothing before or after the match. */
  lemma JsReplaceAllWhole(p: string, r: string)
    requires |p| > 0
    ensures JsReplaceAll(p, p, r) == Substitute(r, p, "", "")
  {
    assert p[..|p|] == p && p[|p|..] == "";
    assert ReplaceAllFrom("" + p, "", p, r) == "";
  }

  /** With a `$`-free replacement the scan is the literal splice. */
  lemma {:induction false} ReplaceAllFromLiteral(before: string, rest: string, p: string, r: string)
    requires |p| > 0 && '$' !in r
    ensures ReplaceAllFrom(before, rest, p, r) == ReplaceAll(rest, p, r)
    decreases |rest|
  {
    if |rest| >= |p| {
      if rest[..|p|] == p {
        ReplaceAllFromLiteral(before + p, rest[|p|..], p, r);
        SubstituteLiteral(r, p, before, rest[|p|..]);
      } else {
        ReplaceAllFromLiteral(before + [rest[0]], rest[1..], p, r);
      }
    }
  }

  lemma JsReplaceAllLiteral(s: string, p: string, r: string)
    requires |p| > 0 && '$' !in r
    ensures JsReplaceAll(s, p, r) == ReplaceAll(s, p, r)
  {
    ReplaceAllFromLiteral("", s, p, r);
  }

  /** Without an occurrence of the pattern the scan copies the rest. */
  lemma {:induction false} ReplaceAllFromNoMatch(before: string, rest: string, p: string, r: string)
    requires |p| > 0 && !Contains(rest, p)
    ensures ReplaceAllFrom(before, rest, p, r) == rest
    decreases |rest|
  {
    if |rest| >= |p| {
      assert !MatchAt(rest, p, 0);
      assert rest[..|p|] != p;
      forall i | 0 <= i <= |rest[1..]|
        ensures !MatchAt(rest[1..], p, i)
      {
        MatchAtTail(rest, p, i);
      }
      ReplaceAllFromNoMatch(before + [rest[0]], rest[1..], p, r);
      assert [rest[0]] + rest[1..] == rest;
    }
  }

  /** Without an occurrence of the pattern nothing is replaced, whatever
      the replacement. */
  lemma JsReplaceAllNoMatch(s: string, p: string, r: string)
    requires |p| > 0 && !Contains(s, p)
    ensures JsReplaceAll(s, p, r) == s
  {
    ReplaceAllFromNoMatch("", s, p, r);
  }

  // ---------------------------------------------------------------------
  // join and split
  // ---------------------------------------------------------------------

  /** `parts.join(sep)`: `[]` joins to `""`, one part to itself. */
  function Join(parts: seq<string>, sep: string): string
  {
    if |parts| == 0 then ""
    else if |parts| == 1 then parts[0]
    else parts[0] + sep + Join(parts[1..], sep)
  }

  /** `s.split(c)` for a single-character separator: never empty, and
      `""` splits to `[""]`. */
  function Split(s: string, c: char): (parts: seq<string>)
    ensures |parts| >= 1
  {
    if |s| == 0 then [""]
    else
      var rest := Split(s[1..], c);
      if s[0] == c then [""] + rest
      else [[s[0]] + rest[0]] + rest[1..]
  }

  /** A string without the separator splits to itself. */
  lemma {:induction false} SplitFree(x: string, c: char)
    requires c !in x
    ensures Split(x, c) == [x]
  {
    if |x| > 0 {
      SplitFree(x[1..], c);
      assert [x[0]] + x[1..] == x;
    }
  }

  /** Splitting stops at the first separator. */
  lemma {:induction false} SplitAtFirst(x: string, y: string, c: char)
    requires c !in x
    ensures Split(x + [c] + y, c) == [x] + Split(y, c)
  {
    if |x| == 0 {
      assert (x + [c] + y)[1..] == y;
    } else {
      assert (x + [c] + y)[1..] == x[1..] + [c] + y;
      SplitAtFirst(x[1..], y, c);
      assert [x[0]] + x[1..] == x;
    }
  }

  /** Joining non-empty lists of separator-free parts is undone by splitting. */
  lemma {:induction false} SplitJoin(parts: seq<string>, c: char)
    requires |parts| >= 1
    requires forall i | 0 <= i < |parts| :: c !in parts[i]
    ensures Split(Join(parts, [c]), c) == parts
  {
    if |parts| == 1 {
      SplitFree(parts[0], c);
    } else {
      SplitJoin(parts[1..], c);
      SplitAtFirst(parts[0], Join(parts[1..], [c]), c);
      assert [parts[0]] + parts[1..] == parts;
    }
  }

  // ---------------------------------------------------------------------
  // decimal numbers
  // ---------------------------------------------------------------------

  predicate IsDigit(c: char)
  {
    '0' <= c <= '9'
  }

  predicate AllDigits(s: string)
  {
    forall i | 0 <= i < |s| :: IsDigit(s[i])
  }

  function DigitChar(d: nat): (c: char)
    requires d < 10
    ensures IsDigit(c) && c as int - '0' as int == d
  {
    ('0' as int + d) as char
  }

  function DigitValue(c: char): nat
    requires IsDigit(c)
  {
    c as int - '0' as int
  }

  /** `String(n)` for a non-negative integer: decimal digits, no leading zero. */
  function NatToString(n: nat): (s: string)
    ensures |s| >= 1 && AllDigits(s)
    ensures s[0] == '0' ==> n == 0
  {
    if n < 10 then [DigitChar(n)] else NatToString(n / 10) + [DigitChar(n % 10)]
  }

  /** Reading decimal digits back, most significant first. */
  function ParseNat(s: string): nat
    requires AllDigits(s)
  {
    if |s| == 0 then 0 else 10 * ParseNat(s[..|s| - 1]) + DigitValue(s[|s| - 1])
  }

  lemma {:induction false} NatToStringRoundTrip(n: nat)
    ensures ParseNat(NatToString(n)) == n
  {
    if n >= 10 {
      var s := NatToString(n);
      assert s[..|s| - 1] == NatToString(n / 10);
      NatToStringRoundTrip(n / 10);
    }
  }

  /** `String(n)` for an integer. */
  function IntToString(n: int): (s: string)
  {
    if n < 0 then "-" + NatToString(-n) else NatToString(n)
  }

  /** Reading back an optional minus sign and decimal digits. */
  function ParseInt(s: string): int
    requires |s| >= 1 && AllDigits(if s[0] == '-' then s[1..] else s)
  {
    if s[0] == '-' then -(ParseNat(s[1..]) as int) else ParseNat(s)
  }

  lemma IntToStringRoundTrip(n: int)
    ensures var s := IntToString(n); |s| >= 1 && AllDigits(if s[0] == '-' then s[1..] else s)
    ensures ParseInt(IntToString(n)) == n
  {
    var s := IntToString(n);
    if n < 0 {
      assert s[1..] == NatToString(-n);
      NatToStringRoundTrip(-n);
    } else {
      NatToStringRoundTrip(n);
    }
  }
}
