/**
 * The Python `str` operations the downloader relies on, on `string` values:
 * `split` and `rsplit` on a one-character separator, `join`, `startswith`,
 * `str()` of an `int`, and `splitlines`.
 */
module PyStr {

  function Min(a: nat, b: nat): nat { if a <= b then a else b }

  /** Number of occurrences of `c` in `s` (Python's `s.count(c)`). */
  function Count(s: string, c: char): (n: nat)
    ensures n <= |s|
  {
    if s == [] then 0
    else (if s[0] == c then 1 else 0) + Count(s[1..], c)
  }

  lemma {:induction false} CountConcat(a: string, b: string, c: char)
    ensures Count(a + b, c) == Count(a, c) + Count(b, c)
  {
    if a != [] {
      assert (a + b)[0] == a[0];
      assert (a + b)[1..] == a[1..] + b;
      CountConcat(a[1..], b, c);
    } else {
      assert a + b == b;
    }
  }

  // ---------------------------------------------------------------------
  // split / join

  /** Index of the first `sep` at or after `i`, or `|s|` if there is none. */
  function SepIndex(s: string, sep: char, i: nat): (k: nat)
    requires i <= |s|
    ensures i <= k <= |s|
    ensures forall j :: i <= j < k ==> s[j] != sep
    ensures k < |s| ==> s[k] == sep
    decreases |s| - i
  {
    if i == |s| || s[i] == sep then i else SepIndex(s, sep, i + 1)
  }

  /** The contract of `SepIndex` determines its result. */
  lemma {:induction false} SepIndexAt(s: string, sep: char, i: nat, k: nat)
    requires i <= k <= |s|
    requires forall j :: i <= j < k ==> s[j] != sep
    requires k < |s| ==> s[k] == sep
    ensures SepIndex(s, sep, i) == k
    decreases k - i
  {
    if i < k {
      SepIndexAt(s, sep, i + 1, k);
    }
  }

  lemma {:induction false} CountNone(s: string, c: char)
    requires c !in s
    ensures Count(s, c) == 0
  {
    if s != [] {
      assert c !in s[1..];
      CountNone(s[1..], c);
    }
  }

  /** Counting around the first separator at `k`. */
  lemma CountAt(s: string, sep: char, k: nat)
    requires k < |s| && s[k] == sep && sep !in s[..k]
    ensures Count(s, sep) == Count(s[k + 1..], sep) + 1
  {
    assert s == s[..k] + s[k..];
    CountConcat(s[..k], s[k..], sep);
    CountNone(s[..k], sep);
    assert s[k..][1..] == s[k + 1..];
  }

  /** Python's `s.split(sep)`: the pieces between the occurrences of `sep`. */
  function Split(s: string, sep: char): (r: seq<string>)
    ensures |r| == Count(s, sep) + 1
    decreases |s|
  {
    var k := SepIndex(s, sep, 0);
    if k == |s| then
      assert s[..k] == s;
      CountNone(s, sep);
      [s]
    else
      CountAt(s, sep, k);
      [s[..k]] + Split(s[k + 1..], sep)
  }

  /** No piece of a split contains the separator. */
  lemma {:induction false} SplitPieces(s: string, sep: char)
    ensures forall i :: 0 <= i < |Split(s, sep)| ==> sep !in Split(s, sep)[i]
    decreases |s|
  {
    var k := SepIndex(s, sep, 0);
    if k < |s| {
      SplitPieces(s[k + 1..], sep);
      assert sep !in s[..k];
    } else {
      assert s[..k] == s;
    }
  }

  /** Python's `sep.join(xs)`. */
  function Join(xs: seq<string>, sep: char): string
  {
    if |xs| == 0 then ""
    else if |xs| == 1 then xs[0]
    else xs[0] + [sep] + Join(xs[1..], sep)
  }

  lemma JoinCons(x: string, ys: seq<string>, sep: char)
    requires |ys| > 0
    ensures Join([x] + ys, sep) == x + [sep] + Join(ys, sep)
  {
    assert ([x] + ys)[1..] == ys;
  }

  /** A join starts with its first piece. */
  lemma JoinStartsWithFirst(xs: seq<string>, sep: char)
    requires |xs| > 0
    ensures xs[0] <= Join(xs, sep)
  {
    if |xs| > 1 {
      assert Join(xs, sep) == xs[0] + ([sep] + Join(xs[1..], sep));
    }
  }

  /** Joining the pieces of a split gives back the string. */
  lemma {:induction false} JoinSplit(s: string, sep: char)
    ensures Join(Split(s, sep), sep) == s
    decreases |s|
  {
    var k := SepIndex(s, sep, 0);
    if k < |s| {
      var rest := s[k + 1..];
      JoinSplit(rest, sep);
      JoinCons(s[..k], Split(rest, sep), sep);
      assert s == s[..k] + [sep] + rest;
    } else {
      assert s[..k] == s;
    }
  }

  lemma SplitOfSepFree(a: string, sep: char)
    requires sep !in a
    ensures Split(a, sep) == [a]
  {
    SepIndexAt(a, sep, 0, |a|);
    assert a[..|a|] == a;
  }

  /** A separator-free piece, a separator, and the rest: the piece comes off first. */
  lemma SplitAfterPiece(a: string, b: string, sep: char)
    requires sep !in a
    ensures Split(a + [sep] + b, sep) == [a] + Split(b, sep)
  {
    var s := a + [sep] + b;
    SepIndexAt(s, sep, 0, |a|);
    assert s[..|a|] == a;
    assert s[|a| + 1..] == b;
  }

  /** Splitting a join of separator-free pieces gives back the pieces. */
  lemma {:induction false} SplitJoin(xs: seq<string>, sep: char)
    requires |xs| > 0
    requires forall i :: 0 <= i < |xs| ==> sep !in xs[i]
    ensures Split(Join(xs, sep), sep) == xs
  {
    if |xs| == 1 {
      SplitOfSepFree(xs[0], sep);
    } else {
      SplitJoin(xs[1..], sep);
      SplitAfterPiece(xs[0], Join(xs[1..], sep), sep);
      assert [xs[0]] + xs[1..] == xs;
    }
  }

  lemma JoinThree(a: string, b: string, c: string, sep: char)
    ensures Join([a, b, c], sep) == a + [sep] + b + [sep] + c
  {
    assert [a, b, c][1..] == [b, c];
    assert [b, c][1..] == [c];
    assert Join([c], sep) == c;
    assert Join([b, c], sep) == b + [sep] + c;
    assert Join([a, b, c], sep) == a + [sep] + (b + [sep] + c);
  }

  lemma {:induction false} JoinAppend(xs: seq<string>, ys: seq<string>, sep: char)
    requires |xs| > 0 && |ys| > 0
    ensures Join(xs + ys, sep) == Join(xs, sep) + [sep] + Join(ys, sep)
  {
    if |xs| == 1 {
      assert (xs + ys)[1..] == ys;
    } else {
      assert (xs + ys)[1..] == xs[1..] + ys;
      JoinAppend(xs[1..], ys, sep);
    }
  }

  /** Python's `s.rsplit(sep, maxsplit)`: at most `maxsplit` splits, taken from the right. */
  function RSplit(s: string, sep: char, maxsplit: nat): (r: seq<string>)
    ensures |r| == Min(Count(s, sep), maxsplit) + 1
  {
    var segs := Split(s, sep);
    if |segs| <= maxsplit + 1 then segs
    else [Join(segs[..|segs| - maxsplit], sep)] + segs[|segs| - maxsplit..]
  }

  /**
   * The pieces of `rsplit` rejoin to the string; all but the first are the
   * last `split` pieces, and the first is the rest of the string rejoined.
   */
  lemma RSplitSpec(s: string, sep: char, maxsplit: nat)
    ensures Join(RSplit(s, sep, maxsplit), sep) == s
    ensures RejoinedShape(RSplit(s, sep, maxsplit), Split(s, sep), sep)
  {
    if |Split(s, sep)| <= maxsplit + 1 {
      RSplitFew(s, sep, maxsplit);
    } else if maxsplit == 0 {
      RSplitNoSplit(s, sep);
    } else {
      RSplitMany(s, sep, maxsplit);
    }
    JoinSplit(s, sep);
  }

  /** `r` joins to what `segs` joins to, its tail is the tail of `segs`, its head the rest. */
  predicate RejoinedShape(r: seq<string>, segs: seq<string>, sep: char)
  {
    && 0 < |r| <= |segs|
    && Join(r, sep) == Join(segs, sep)
    && r[0] == Join(segs[..|segs| - |r| + 1], sep)
    && forall i :: 0 < i < |r| ==> r[i] == segs[|segs| - |r| + i]
  }

  /** With no more separators than `maxsplit`, `rsplit` is `split`. */
  lemma RSplitFew(s: string, sep: char, maxsplit: nat)
    requires |Split(s, sep)| <= maxsplit + 1
    ensures RejoinedShape(RSplit(s, sep, maxsplit), Split(s, sep), sep)
  {
    var segs := Split(s, sep);
    assert segs[..1] == [segs[0]];
  }

  /** With `maxsplit` 0, `rsplit` returns the whole string as its one piece. */
  lemma RSplitNoSplit(s: string, sep: char)
    requires |Split(s, sep)| > 1
    ensures RejoinedShape(RSplit(s, sep, 0), Split(s, sep), sep)
  {
    var segs := Split(s, sep);
    assert segs[..|segs|] == segs && segs[|segs|..] == [];
    assert RSplit(s, sep, 0) == [Join(segs, sep)];
  }

  /** With more separators than `maxsplit > 0`, the leading segments are re-joined. */
  lemma RSplitMany(s: string, sep: char, maxsplit: nat)
    requires |Split(s, sep)| > maxsplit + 1 && maxsplit > 0
    ensures RejoinedShape(RSplit(s, sep, maxsplit), Split(s, sep), sep)
  {
    var segs := Split(s, sep);
    assert RSplit(s, sep, maxsplit) == Rejoined(segs, maxsplit, sep);
    RSplitRejoins(segs, maxsplit, sep);
  }

  /** The first segments re-joined into one piece, the last `k` kept apart. */
  function Rejoined(segs: seq<string>, k: nat, sep: char): seq<string>
    requires k < |segs|
  {
    [Join(segs[..|segs| - k], sep)] + segs[|segs| - k..]
  }

  /** Re-joining the first segments loses nothing and leaves the last `k` in place. */
  lemma RSplitRejoins(segs: seq<string>, k: nat, sep: char)
    requires 0 < k < |segs|
    ensures RejoinedShape(Rejoined(segs, k, sep), segs, sep)
  {
    var m := |segs| - k;
    JoinAppend([Join(segs[..m], sep)], segs[m..], sep);
    JoinAppend(segs[..m], segs[m..], sep);
    assert segs[..m] + segs[m..] == segs;
  }

  // ---------------------------------------------------------------------
  // startswith

  /** Python's `s.startswith(prefix)`: an exact, case-sensitive prefix test. */
  function StartsWith(s: string, prefix: string): (r: bool)
    ensures r <==> prefix <= s
  {
    |prefix| <= |s| && s[..|prefix|] == prefix
  }

  // ---------------------------------------------------------------------
  // str(int)

  predicate IsDigit(c: char) { '0' <= c <= '9' }

  function DigitChar(d: nat): (c: char)
    requires d < 10
    ensures IsDigit(c) && c as int - '0' as int == d
  {
    (('0' as int) + d) as char
  }

  function DigitValue(c: char): int { c as int - '0' as int }

  /** Python's `str(n)` for `n >= 0`: decimal digits, no leading zero. */
  function NatToStr(n: nat): (r: string)
    ensures |r| >= 1
    ensures forall i :: 0 <= i < |r| ==> IsDigit(r[i])
    ensures (r[0] == '0') <==> n == 0
    ensures (|r| == 1) <==> n < 10
  {
    if n < 10 then [DigitChar(n)] else NatToStr(n / 10) + [DigitChar(n % 10)]
  }

  /** Python's `str(i)`: a `-` sign for negative values, then the digits of `|i|`. */
  function IntToStr(i: int): (r: string)
    ensures |r| >= 1
    ensures (r[0] == '-') <==> i < 0
    ensures forall k :: 0 <= k < |r| ==> IsDigit(r[k]) || (k == 0 && r[k] == '-')
  {
    if i < 0 then "-" + NatToStr(-i) else NatToStr(i)
  }

  /** Reads decimal digits back (the inverse of `NatToStr`). */
  function ParseNat(s: string): int
  {
    if s == [] then 0 else 10 * ParseNat(s[..|s| - 1]) + DigitValue(s[|s| - 1])
  }

  /** Reads an optionally signed decimal back (the inverse of `IntToStr`). */
  function ParseInt(s: string): int
  {
    if |s| > 0 && s[0] == '-' then -ParseNat(s[1..]) else ParseNat(s)
  }

  lemma {:induction false} ParseNatToStr(n: nat)
    ensures ParseNat(NatToStr(n)) == n
  {
    if n >= 10 {
      ParseNatToStr(n / 10);
      var x := NatToStr(n / 10);
      assert (x + [DigitChar(n % 10)])[..|x|] == x;
    }
  }

  /** `str` loses nothing: the decimal text determines the integer. */
  lemma IntToStrRoundTrip(i: int)
    ensures ParseInt(IntToStr(i)) == i
  {
    if i < 0 {
      ParseNatToStr(-i);
      assert ("-" + NatToStr(-i))[1..] == NatToStr(-i);
    } else {
      ParseNatToStr(i);
    }
  }

  lemma IntToStrInjective(i: int, j: int)
    requires IntToStr(i) == IntToStr(j)
    ensures i == j
  {
    IntToStrRoundTrip(i);
    IntToStrRoundTrip(j);
  }

  // ---------------------------------------------------------------------
  // splitlines

  /**
   * The characters on which Python's `str.splitlines` breaks: line feed,
   * carriage return, line tabulation, form feed, the file, group and record
   * separators, next line, line separator and paragraph separator. A
   * carriage return directly followed by a line feed is one boundary.
   */
  predicate IsLineBreak(c: char)
  {
    || c == '\n' || c == '\r' || c == '\U{000B}' || c == '\U{000C}'
    || c == '\U{001C}' || c == '\U{001D}' || c == '\U{001E}'
    || c == '\U{0085}' || c == '\U{2028}' || c == '\U{2029}'
  }

  /** The boundary set by code point: U+000A-000D, U+001C-001E, U+0085, U+2028, U+2029. */
  lemma LineBreakCodes(c: char)
    ensures IsLineBreak(c) <==> c as int in {0x0A, 0x0B, 0x0C, 0x0D, 0x1C, 0x1D, 0x1E, 0x85, 0x2028, 0x2029}
  {
  }

  /** A string with no line boundary in it. */
  predicate IsLine(s: string)
  {
    forall i :: 0 <= i < |s| ==> !IsLineBreak(s[i])
  }

  predicate IsLineEnding(e: string)
  {
    e == "\r\n" || (|e| == 1 && IsLineBreak(e[0]))
  }

  /** The first line of a text, the boundary that ends it, and the text after it. */
  datatype LineBreak = LineBreak(line: string, ending: string, rest: string)

  /** Index of the first line boundary at or after `i`, or `|s|` if there is none. */
  function LineEnd(s: string, i: nat): (k: nat)
    requires i <= |s|
    ensures i <= k <= |s|
    ensures forall j :: i <= j < k ==> !IsLineBreak(s[j])
    ensures k < |s| ==> IsLineBreak(s[k])
    decreases |s| - i
  {
    if i == |s| || IsLineBreak(s[i]) then i else LineEnd(s, i + 1)
  }

  /** The contract of `LineEnd` determines its result. */
  lemma {:induction false} LineEndAt(s: string, i: nat, k: nat)
    requires i <= k <= |s|
    requires forall j :: i <= j < k ==> !IsLineBreak(s[j])
    requires k < |s| ==> IsLineBreak(s[k])
    ensures LineEnd(s, i) == k
    decreases k - i
  {
    if i < k {
      LineEndAt(s, i + 1, k);
    }
  }

  function TakeLine(s: string): (r: LineBreak)
    ensures r.line + r.ending + r.rest == s
    ensures IsLine(r.line)
    ensures r.ending == [] ==> r.rest == []
    ensures r.ending != [] ==> IsLineEnding(r.ending)
    ensures r.ending == "\r" ==> !(|r.rest| > 0 && r.rest[0] == '\n')
    ensures s != [] ==> |r.rest| < |s|
  {
    var k := LineEnd(s, 0);
    if k == |s| then
      assert s[..k] == s;
      LineBreak(s, "", "")
    else if s[k] == '\r' && k + 1 < |s| && s[k + 1] == '\n' then
      assert s[..k] + "\r\n" + s[k + 2..] == s;
      LineBreak(s[..k], "\r\n", s[k + 2..])
    else
      assert s[..k] + [s[k]] + s[k + 1..] == s;
      LineBreak(s[..k], [s[k]], s[k + 1..])
  }

  /** The contract of `TakeLine` determines its result. */
  lemma TakeLineUnique(s: string, l: string, e: string, rest: string)
    requires l + e + rest == s
    requires IsLine(l) && IsLineEnding(e)
    requires e == "\r" ==> !(|rest| > 0 && rest[0] == '\n')
    ensures TakeLine(s) == LineBreak(l, e, rest)
  {
    var k := |l|;
    assert forall j :: 0 <= j < k ==> s[j] == l[j];
    assert s[k] == e[0];
    LineEndAt(s, 0, k);
    assert s[..k] == l;
    if e == "\r\n" {
      assert s[k + 1] == '\n';
      assert s[k + 2..] == rest;
    } else {
      assert s[k + 1..] == rest;
      if e[0] == '\r' && k + 1 < |s| {
        assert s[k + 1] == rest[0];
      }
    }
  }

  lemma TakeLineOfLine(l: string)
    requires IsLine(l)
    ensures TakeLine(l) == LineBreak(l, "", "")
  {
    LineEndAt(l, 0, |l|);
  }

  /** Python's `text.splitlines()`: the lines, without their boundaries. */
  function SplitLines(s: string): (r: seq<string>)
    ensures forall i :: 0 <= i < |r| ==> IsLine(r[i])
    ensures |r| <= |s|
    ensures (|r| == 0) <==> (s == [])
    decreases |s|
  {
    if s == [] then []
    else
      var t := TakeLine(s);
      [t.line] + SplitLines(t.rest)
  }

  lemma SplitLinesCons(l: string, e: string, rest: string)
    requires IsLine(l) && IsLineEnding(e)
    requires e == "\r" ==> !(|rest| > 0 && rest[0] == '\n')
    ensures SplitLines(l + e + rest) == [l] + SplitLines(rest)
  {
    TakeLineUnique(l + e + rest, l, e, rest);
  }

  lemma SplitLinesNewline(l: string, rest: string)
    requires IsLine(l)
    ensures SplitLines(l + "\n" + rest) == [l] + SplitLines(rest)
  {
    assert IsLineEnding("\n");
    SplitLinesCons(l, "\n", rest);
  }

  /** A non-empty text without boundaries is a single line. */
  lemma SplitLinesOfLine(l: string)
    requires IsLine(l) && l != []
    ensures SplitLines(l) == [l]
  {
    TakeLineOfLine(l);
  }

  lemma IsLineConcat(a: string, b: string)
    requires IsLine(a) && IsLine(b)
    ensures IsLine(a + b)
  {
    forall i | 0 <= i < |a + b| ensures !IsLineBreak((a + b)[i]) {
      if i < |a| {
        assert (a + b)[i] == a[i];
      } else {
        assert (a + b)[i] == b[i - |a|];
      }
    }
  }

  /** Joining lines on a separator that is no line boundary gives one line. */
  lemma {:induction false} JoinIsLine(xs: seq<string>, sep: char)
    requires !IsLineBreak(sep)
    requires forall i :: 0 <= i < |xs| ==> IsLine(xs[i])
    ensures IsLine(Join(xs, sep))
  {
    if |xs| > 1 {
      JoinIsLine(xs[1..], sep);
      assert IsLine([sep]);
      IsLineConcat(xs[0], [sep]);
      IsLineConcat(xs[0] + [sep], Join(xs[1..], sep));
    } else if |xs| == 1 {
      assert Join(xs, sep) == xs[0];
    }
  }

  /** Each line followed by a line feed, as a text file writes them. */
  function Terminated(ls: seq<string>): string
  {
    if ls == [] then "" else ls[0] + "\n" + Terminated(ls[1..])
  }

  lemma HeadTail<T>(s: seq<T>)
    requires s != []
    ensures [s[0]] + s[1..] == s
  {
  }

  lemma Associative3<T>(a: seq<T>, b: seq<T>, c: seq<T>)
    ensures a + (b + c) == a + b + c
  {
  }

  lemma Associative4<T>(a: seq<T>, b: seq<T>, c: seq<T>, d: seq<T>)
    ensures a + b + c + d == a + b + (c + d)
  {
  }

  lemma Associative5<T>(a: seq<T>, b: seq<T>, c: seq<T>, d: seq<T>, e: seq<T>)
    ensures a + b + c + d + e == a + b + (c + d + e)
  {
  }

  lemma TerminatedCons(ls: seq<string>, rest: string)
    requires ls != []
    ensures Terminated(ls) + rest == ls[0] + "\n" + (Terminated(ls[1..]) + rest)
  {
    Associative4(ls[0], "\n", Terminated(ls[1..]), rest);
  }

  /** The first written line comes off first. */
  lemma SplitLinesTerminatedStep(ls: seq<string>, rest: string)
    requires ls != [] && IsLine(ls[0])
    ensures SplitLines(Terminated(ls) + rest) == [ls[0]] + SplitLines(Terminated(ls[1..]) + rest)
  {
    TerminatedCons(ls, rest);
    SplitLinesNewline(ls[0], Terminated(ls[1..]) + rest);
  }

  /** `splitlines` undoes writing lines with line feeds, whatever follows. */
  lemma {:induction false} SplitLinesTerminated(ls: seq<string>, rest: string)
    requires forall i :: 0 <= i < |ls| ==> IsLine(ls[i])
    ensures SplitLines(Terminated(ls) + rest) == ls + SplitLines(rest)
  {
    if ls != [] {
      var more := ls[1..];
      SplitLinesTerminatedStep(ls, rest);
      assert forall i :: 0 <= i < |more| ==> IsLine(more[i]) by {
        forall i | 0 <= i < |more| ensures IsLine(more[i]) {
          assert more[i] == ls[i + 1];
        }
      }
      SplitLinesTerminated(more, rest);
      HeadTail(ls);
      Associative3([ls[0]], more, SplitLines(rest));
    } else {
      assert Terminated(ls) + rest == rest;
    }
  }
}
