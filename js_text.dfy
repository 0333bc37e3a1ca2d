/**
 The JavaScript string primitives the request builder is written against:
 `String.prototype.indexOf` and `String.prototype.replace` with a string pattern,
 `Array.prototype.join`, and `Number.prototype.toString` on integral numbers.
 `String.prototype.split` and an integer parser are here too, as the inverses
 that the lemmas about joined messages and printed numbers are stated with.
 */
module JsText {

  datatype Option<+T> = None | Some(value: T)

  // ---------------------------------------------------------------------------
  // Searching
  // ---------------------------------------------------------------------------

  /** `pat` occurs in `s` starting at index `i`. */
  predicate OccursAt(s: string, pat: string, i: nat) {
    i + |pat| <= |s| && s[i..i + |pat|] == pat
  }

  /** `pat` occurs somewhere in `s`. */
  predicate Contains(s: string, pat: string) {
    exists i: nat | i <= |s| :: OccursAt(s, pat, i)
  }

  /** The least index from `from` on at which `pat` occurs in `s`, or None. */
  function IndexFrom(s: string, pat: string, from: nat): (r: Option<nat>)
    ensures r.Some? ==> from <= r.value && OccursAt(s, pat, r.value)
    ensures r.Some? ==> forall j: nat :: from <= j < r.value ==> !OccursAt(s, pat, j)
    ensures r.None? ==> forall j: nat :: from <= j ==> !OccursAt(s, pat, j)
    decreases |s| + 1 - from
  {
    if from > |s| then None
    else if OccursAt(s, pat, from) then Some(from)
    else IndexFrom(s, pat, from + 1)
  }

  /** `s.indexOf(pat)`: the least index at which `pat` occurs in `s`, or None. */
  function IndexOf(s: string, pat: string): (r: Option<nat>)
    ensures r.Some? ==> OccursAt(s, pat, r.value)
    ensures r.Some? ==> forall j: nat :: j < r.value ==> !OccursAt(s, pat, j)
    ensures r.None? ==> forall j: nat :: !OccursAt(s, pat, j)
  {
    IndexFrom(s, pat, 0)
  }

  /** An occurrence with none before it is the one `indexOf` finds. */
  lemma IndexOfLeast(s: string, pat: string, i: nat)
    requires OccursAt(s, pat, i)
    requires forall j: nat :: j < i ==> !OccursAt(s, pat, j)
    ensures IndexOf(s, pat) == Some(i)
  {
  }

  /** Every occurrence of a pattern starts with the pattern's first character. */
  lemma OccurrenceStartsWith(s: string, pat: string)
    requires |pat| > 0
    ensures forall i: nat :: OccursAt(s, pat, i) ==> s[i] == pat[0]
  {
    forall i: nat | OccursAt(s, pat, i) ensures s[i] == pat[0] {
      assert s[i..i + |pat|][0] == s[i];
    }
  }

  // ---------------------------------------------------------------------------
  // Replacing
  // ---------------------------------------------------------------------------

  /**
   The text `replace` inserts for the replacement string `repl` when the
   pattern is a string (the GetSubstitution operation of ECMA-262, with no
   capture groups): `$$` stands for `$`, `$&` for the matched text, `` $` ``
   for the text before the match and `$'` for the text after it. Every other
   character, a `$` starting any other sequence included, stands for itself.
   */
  function Substitution(repl: string, before: string, matched: string, after: string): (r: string)
    ensures '$' !in repl ==> r == repl
    decreases |repl|
  {
    if |repl| >= 2 && repl[0] == '$' && repl[1] in "$&`'" then
      var expansion :=
        if repl[1] == '$' then "$"
        else if repl[1] == '&' then matched
        else if repl[1] == '`' then before
        else after;
      expansion + Substitution(repl[2..], before, matched, after)
    else if |repl| > 0 then
      assert repl == [repl[0]] + repl[1..];
      [repl[0]] + Substitution(repl[1..], before, matched, after)
    else
      ""
  }

  /** `s.replace(pat, repl)` with a string pattern: only the first occurrence is replaced. */
  function ReplaceFirst(s: string, pat: string, repl: string): (r: string)
    ensures !Contains(s, pat) ==> r == s
  {
    match IndexOf(s, pat)
    case None => s
    case Some(i) => s[..i] + Substitution(repl, s[..i], pat, s[i + |pat|..]) + s[i + |pat|..]
  }

  /**
   When `pat` first occurs at `i` and `repl` has no `$`, `replace` splices
   `repl` in place of exactly that occurrence and leaves the rest of `s` alone.
   */
  lemma ReplaceFirstAt(s: string, pat: string, repl: string, i: nat)
    requires OccursAt(s, pat, i)
    requires forall j: nat :: j < i ==> !OccursAt(s, pat, j)
    requires '$' !in repl
    ensures ReplaceFirst(s, pat, repl) == s[..i] + repl + s[i + |pat|..]
  {
    IndexOfLeast(s, pat, i);
  }

  /** A replacement of `$&` puts the matched text back, so the string is unchanged. */
  lemma ReplaceWithMatch(s: string, pat: string)
    ensures ReplaceFirst(s, pat, "$&") == s
  {
    match IndexOf(s, pat)
    case None =>
    case Some(i) =>
      var before := s[..i];
      var after := s[i + |pat|..];
      calc {
        Substitution("$&", before, pat, after);
        pat + Substitution("", before, pat, after);
        pat;
      }
      assert before + pat + after == s;
  }

  /** An occurrence in `b` is an occurrence in `a + b`, shifted by `|a|`. */
  lemma OccursShifted(a: string, b: string, pat: string, k: nat)
    ensures OccursAt(a + b, pat, |a| + k) <==> OccursAt(b, pat, k)
  {
    if |a| + k + |pat| <= |a + b| {
      assert (a + b)[|a| + k..|a| + k + |pat|] == b[k..k + |pat|];
    }
  }

  /**
   When the pattern does not start anywhere inside `a`, replacing in `a + b`
   keeps `a` and replaces in `b` (for a replacement without `$`).
   */
  lemma ReplaceFirstAfter(a: string, b: string, pat: string, repl: string)
    requires forall q: nat :: q < |a| ==> !OccursAt(a + b, pat, q)
    requires '$' !in repl
    ensures ReplaceFirst(a + b, pat, repl) == a + ReplaceFirst(b, pat, repl)
  {
    match IndexOf(b, pat)
    case None =>
      NotFoundAfter(a, b, pat);
    case Some(i) =>
      FoundAfter(a, b, pat, repl, i);
  }

  lemma NotFoundAfter(a: string, b: string, pat: string)
    requires forall q: nat :: q < |a| ==> !OccursAt(a + b, pat, q)
    requires !Contains(b, pat)
    ensures !Contains(a + b, pat)
  {
    forall q: nat | q <= |a + b|
      ensures !OccursAt(a + b, pat, q)
    {
      if q >= |a| {
        OccursShifted(a, b, pat, q - |a|);
      }
    }
  }

  lemma FoundAfter(a: string, b: string, pat: string, repl: string, i: nat)
    requires forall q: nat :: q < |a| ==> !OccursAt(a + b, pat, q)
    requires '$' !in repl
    requires IndexOf(b, pat) == Some(i)
    ensures ReplaceFirst(a + b, pat, repl) == a + ReplaceFirst(b, pat, repl)
  {
    FirstAfter(a, b, pat, i);
    ReplaceFirstAt(b, pat, repl, i);
    SpliceAfter(a, b, |pat|, repl, i);
  }

  /** The first occurrence in `a + b` is the first one in `b`, shifted by `|a|`. */
  lemma FirstAfter(a: string, b: string, pat: string, i: nat)
    requires forall q: nat :: q < |a| ==> !OccursAt(a + b, pat, q)
    requires IndexOf(b, pat) == Some(i)
    ensures IndexOf(a + b, pat) == Some(|a| + i)
  {
    OccursShifted(a, b, pat, i);
    forall j: nat | j < |a| + i
      ensures !OccursAt(a + b, pat, j)
    {
      if j >= |a| {
        OccursShifted(a, b, pat, j - |a|);
      }
    }
    IndexOfLeast(a + b, pat, |a| + i);
  }

  lemma SpliceAfter(a: string, b: string, n: nat, repl: string, i: nat)
    requires i + n <= |b|
    ensures (a + b)[..|a| + i] + repl + (a + b)[|a| + i + n..] == a + (b[..i] + repl + b[i + n..])
  {
    assert (a + b)[..|a| + i] == a + b[..i];
    assert (a + b)[|a| + i + n..] == b[i + n..];
  }

  lemma Associative(x: string, y: string, z: string)
    ensures x + (y + z) == x + y + z
  {
  }

  // ---------------------------------------------------------------------------
  // Joining and splitting lines
  // ---------------------------------------------------------------------------

  /** The number of characters in all the lines together. */
  function TotalLength(lines: seq<string>): nat
    decreases |lines|
  {
    if |lines| == 0 then 0 else |lines[0]| + TotalLength(lines[1..])
  }

  /** `lines.join(sep)`: the empty array gives the empty string. */
  function Join(lines: seq<string>, sep: string): (r: string)
    ensures |lines| > 0 ==> |r| == TotalLength(lines) + (|lines| - 1) * |sep|
    decreases |lines|
  {
    if |lines| == 0 then ""
    else if |lines| == 1 then lines[0]
    else lines[0] + sep + Join(lines[1..], sep)
  }

  /** `s.split(c)` for a one-character separator: the empty string gives `[""]`. */
  function Split(s: string, c: char): (r: seq<string>)
    ensures |r| > 0
    decreases |s|
  {
    if |s| == 0 then [""]
    else
      var rest := Split(s[1..], c);
      if s[0] == c then [""] + rest
      else [[s[0]] + rest[0]] + rest[1..]
  }

  /** A prefix without the separator is glued onto the first piece of what follows it. */
  lemma {:induction false} SplitPrefix(a: string, b: string, c: char)
    requires c !in a
    ensures Split(a + b, c) == [a + Split(b, c)[0]] + Split(b, c)[1..]
    decreases |a|
  {
    if |a| > 0 {
      assert (a + b)[0] == a[0] && (a + b)[1..] == a[1..] + b;
      assert c !in a[1..] by {
        forall k | 0 <= k < |a[1..]| ensures a[1..][k] != c {
          assert a[1..][k] == a[k + 1];
        }
      }
      SplitPrefix(a[1..], b, c);
      assert [a[0]] + (a[1..] + Split(b, c)[0]) == a + Split(b, c)[0];
    } else {
      var pieces := Split(b, c);
      assert a + b == b && a + pieces[0] == pieces[0];
      assert pieces == [pieces[0]] + pieces[1..];
    }
  }

  /** Splitting a joined list of separator-free lines gives the lines back. */
  lemma {:induction false} SplitJoin(lines: seq<string>, c: char)
    requires |lines| > 0
    requires forall k :: 0 <= k < |lines| ==> c !in lines[k]
    ensures Split(Join(lines, [c]), c) == lines
    decreases |lines|
  {
    if |lines| == 1 {
      SplitPrefix(lines[0], "", c);
      assert lines[0] + "" == lines[0];
    } else {
      var rest := Join(lines[1..], [c]);
      assert Join(lines, [c]) == lines[0] + ([c] + rest);
      SplitPrefix(lines[0], [c] + rest, c);
      assert ([c] + rest)[0] == c && ([c] + rest)[1..] == rest;
      assert Split([c] + rest, c) == [""] + Split(rest, c);
      SplitJoin(lines[1..], c);
      assert lines[0] + "" == lines[0];
      assert lines == [lines[0]] + lines[1..];
    }
  }

  /** Joining the pieces of a split with the separator gives the text back. */
  lemma {:induction false} JoinSplit(s: string, c: char)
    ensures Join(Split(s, c), [c]) == s
    decreases |s|
  {
    if |s| > 0 {
      var rest := Split(s[1..], c);
      JoinSplit(s[1..], c);
      if s[0] == c {
        assert ([""] + rest)[1..] == rest;
        assert s == [c] + s[1..];
      } else if |rest| == 1 {
        assert s == [s[0]] + s[1..];
      } else {
        var r := [[s[0]] + rest[0]] + rest[1..];
        assert r[1..] == rest[1..];
        assert Join(rest, [c]) == rest[0] + [c] + Join(rest[1..], [c]);
        assert s == [s[0]] + s[1..];
      }
    }
  }

  // ---------------------------------------------------------------------------
  // Decimal text of integers
  // ---------------------------------------------------------------------------

  predicate IsDigit(ch: char) {
    '0' <= ch <= '9'
  }

  predicate AllDigits(s: string) {
    forall k :: 0 <= k < |s| ==> IsDigit(s[k])
  }

  function DigitChar(d: nat): (ch: char)
    requires d < 10
    ensures IsDigit(ch)
  {
    (('0' as int) + d) as char
  }

  function DigitValue(ch: char): (d: nat)
    requires IsDigit(ch)
    ensures d < 10
  {
    (ch as int) - ('0' as int)
  }

  /** The decimal digits of `n`, most significant first, without leading zeros. */
  function NatToDecimal(n: nat): (r: string)
    ensures |r| > 0 && AllDigits(r)
    ensures |r| > 1 ==> r[0] != '0'
    decreases n
  {
    if n < 10 then [DigitChar(n)]
    else NatToDecimal(n / 10) + [DigitChar(n % 10)]
  }

  /** The number a string of decimal digits denotes. */
  function DecimalValue(s: string): nat
    requires AllDigits(s)
    decreases |s|
  {
    if |s| == 0 then 0
    else 10 * DecimalValue(s[..|s| - 1]) + DigitValue(s[|s| - 1])
  }

  lemma {:induction false} DecimalRoundTrip(n: nat)
    ensures DecimalValue(NatToDecimal(n)) == n
    decreases n
  {
    var r := NatToDecimal(n);
    if n >= 10 {
      DecimalRoundTrip(n / 10);
      assert r[..|r| - 1] == NatToDecimal(n / 10);
    }
  }

  /**
   `n.toString()` for an integral number: an optional minus sign and then the
   decimal digits.
   */
  function NumberToString(n: int): (r: string)
    ensures |r| > 0
    ensures forall k :: 0 <= k < |r| ==> IsDigit(r[k]) || (k == 0 && r[k] == '-')
  {
    if n < 0 then "-" + NatToDecimal(-n) else NatToDecimal(n)
  }

  /** Reads back an optionally signed run of decimal digits. */
  function ParseInt(s: string): Option<int> {
    if |s| > 1 && s[0] == '-' && AllDigits(s[1..]) then
      var magnitude: int := DecimalValue(s[1..]);
      Some(-magnitude)
    else if |s| > 0 && AllDigits(s) then Some(DecimalValue(s))
    else None
  }

  /** Printed numbers read back as themselves, so different numbers print differently. */
  lemma NumberToStringRoundTrip(n: int)
    ensures ParseInt(NumberToString(n)) == Some(n)
  {
    if n < 0 {
      DecimalRoundTrip(-n);
      assert NumberToString(n)[1..] == NatToDecimal(-n);
    } else {
      DecimalRoundTrip(n);
    }
  }
}
