/**
 * The JavaScript string primitives the codec is built from, with the
 * semantics of the ECMAScript built-ins they stand for: `split` on a single
 * character, on `/\s+/` and on `/\r?\n/`, `join`, `trim`, the regular
 * expression classes `\s` and `.`, `slice(0, -1)`, decimal `String(n)` and
 * `parseInt(s, 10)` on digit strings.
 */
module JsString {

  /** The class `\s` of a JavaScript regular expression; also what `String.prototype.trim` strips. */
  predicate IsSpace(c: char) {
    c == '\t' || c == '\n' || c == '\U{B}' || c == '\U{C}' || c == '\r' || c == ' ' ||
    c == '\U{A0}' || c == '\U{1680}' || ('\U{2000}' <= c <= '\U{200A}') ||
    c == '\U{2028}' || c == '\U{2029}' || c == '\U{202F}' || c == '\U{205F}' ||
    c == '\U{3000}' || c == '\U{FEFF}'
  }

  /** The characters the regular-expression wildcard `.` does not match. */
  predicate IsLineTerminator(c: char) {
    c == '\n' || c == '\r' || c == '\U{2028}' || c == '\U{2029}'
  }

  predicate NoSpace(s: string) {
    forall i :: 0 <= i < |s| ==> !IsSpace(s[i])
  }

  predicate IsDigit(c: char) {
    '0' <= c <= '9'
  }

  /** A non-empty run of decimal digits. */
  predicate IsDigits(s: string) {
    |s| > 0 && forall i :: 0 <= i < |s| ==> IsDigit(s[i])
  }

  // ---------------------------------------------------------------------
  // trim

  function TrimStart(s: string): (r: string)
    ensures |r| <= |s| && r == s[|s| - |r|..]
    ensures r == [] || !IsSpace(r[0])
    ensures forall i :: 0 <= i < |s| - |r| ==> IsSpace(s[i])
  {
    if s != [] && IsSpace(s[0]) then TrimStart(s[1..]) else s
  }

  function TrimEnd(s: string): (r: string)
    ensures |r| <= |s| && r == s[..|r|]
    ensures r == [] || !IsSpace(r[|r| - 1])
    ensures forall i :: |r| <= i < |s| ==> IsSpace(s[i])
  {
    if s != [] && IsSpace(s[|s| - 1]) then TrimEnd(s[..|s| - 1]) else s
  }

  /** `s.trim()`. */
  function Trim(s: string): string {
    TrimEnd(TrimStart(s))
  }

  /** Trimming a string that neither starts nor ends with white space changes nothing. */
  lemma TrimUnpadded(s: string)
    requires s == [] || (!IsSpace(s[0]) && !IsSpace(s[|s| - 1]))
    ensures Trim(s) == s
  {
  }

  /** One leading blank is trimmed away from a string that neither starts nor ends with white space. */
  lemma TrimLeadingBlank(s: string)
    requires s == [] || (!IsSpace(s[0]) && !IsSpace(s[|s| - 1]))
    ensures Trim(" " + s) == s
  {
    assert (" " + s)[1..] == s;
    TrimUnpadded(s);
  }

  // ---------------------------------------------------------------------
  // split on one character, join, concatenation

  /** `s.split(sep)` for a one-character separator: always at least one piece, none containing `sep`. */
  function Split(s: string, sep: char): (r: seq<string>)
    ensures |r| >= 1
    ensures forall i :: 0 <= i < |r| ==> sep !in r[i]
  {
    if s == [] then [""]
    else
      var rest := Split(s[1..], sep);
      if s[0] == sep then [""] + rest
      else [[s[0]] + rest[0]] + rest[1..]
  }

  lemma {:induction false} SplitWithout(s: string, sep: char)
    requires sep !in s
    ensures Split(s, sep) == [s]
  {
    if s != [] {
      assert sep !in s[1..];
      SplitWithout(s[1..], sep);
      assert [s[0]] + s[1..] == s;
    }
  }

  /** Splitting at one occurrence of the separator splits each side independently. */
  lemma {:induction false} SplitAround(a: string, sep: char, b: string)
    ensures Split(a + [sep] + b, sep) == Split(a, sep) + Split(b, sep)
  {
    if a == [] {
      assert a + [sep] + b == [sep] + b;
      assert ([sep] + b)[1..] == b;
    } else {
      assert (a + [sep] + b)[1..] == a[1..] + [sep] + b;
      SplitAround(a[1..], sep, b);
    }
  }

  /** Re-attaching the first character of `s` in front of the rest of `s + u`. */
  lemma ConsAppend(s: string, u: string)
    requires s != []
    ensures [s[0]] + (s[1..] + u) == s + u
  {
    assert [s[0]] + s[1..] == s;
  }

  /** Two blank-free words joined by one blank, possibly after one more blank, trim and split back into the two words. */
  lemma TwoWords(k: string, t: string, clause: string)
    requires k != "" && t != "" && NoSpace(k) && NoSpace(t)
    requires clause == k + " " + t || clause == " " + (k + " " + t)
    ensures clause != ""
    ensures Split(Trim(clause), ' ') == [k, t]
  {
    TrimWords(k, t, clause);
    NoSpaceNoBlank(k);
    NoSpaceNoBlank(t);
    SplitTwo(k, t);
  }

  lemma SplitTwo(k: string, t: string)
    requires ' ' !in k && ' ' !in t
    ensures Split(k + [' '] + t, ' ') == [k, t]
  {
    SplitAround(k, ' ', t);
    SplitWithout(k, ' ');
    SplitWithout(t, ' ');
  }

  lemma NoSpaceNoBlank(s: string)
    requires NoSpace(s)
    ensures ' ' !in s
  {
    forall i | 0 <= i < |s|
      ensures s[i] != ' '
    {
      assert !IsSpace(s[i]);
    }
  }

  lemma TrimWords(k: string, t: string, clause: string)
    requires k != "" && t != "" && NoSpace(k) && NoSpace(t)
    requires clause == k + " " + t || clause == " " + (k + " " + t)
    ensures Trim(clause) == k + [' '] + t
  {
    var p := k + " " + t;
    assert p[0] == k[0];
    assert p[|p| - 1] == t[|t| - 1];
    if clause == p {
      TrimUnpadded(p);
    } else {
      TrimLeadingBlank(p);
    }
  }

  /** `pieces.join(sep)`. */
  function Join(pieces: seq<string>, sep: string): string {
    if |pieces| == 0 then ""
    else if |pieces| == 1 then pieces[0]
    else Join(pieces[..|pieces| - 1], sep) + sep + pieces[|pieces| - 1]
  }

  /** Joining with a separator character and splitting on it again gives the pieces back. */
  lemma {:induction false} SplitJoin(pieces: seq<string>, sep: char)
    requires |pieces| >= 1
    requires forall i :: 0 <= i < |pieces| ==> sep !in pieces[i]
    ensures Split(Join(pieces, [sep]), sep) == pieces
  {
    var n := |pieces|;
    if n == 1 {
      SplitWithout(pieces[0], sep);
    } else {
      var front := pieces[..n - 1];
      SplitJoin(front, sep);
      SplitWithout(pieces[n - 1], sep);
      SplitAround(Join(front, [sep]), sep, pieces[n - 1]);
      assert front + [pieces[n - 1]] == pieces;
    }
  }

  /** Joining peels off its first piece. */
  lemma {:induction false} JoinCons(head: string, rest: seq<string>, sep: string)
    requires |rest| >= 1
    ensures Join([head] + rest, sep) == head + sep + Join(rest, sep)
  {
    var n := |rest|;
    if n == 1 {
      assert [head] + rest == [head, rest[0]];
      assert ([head] + rest)[..1] == [head];
    } else {
      assert ([head] + rest)[..n] == [head] + rest[..n - 1];
      JoinCons(head, rest[..n - 1], sep);
    }
  }

  /** A character found in no piece and not in the separator is not in the joined string. */
  lemma {:induction false} JoinWithout(pieces: seq<string>, sep: string, c: char)
    requires c !in sep
    requires forall i :: 0 <= i < |pieces| ==> c !in pieces[i]
    ensures c !in Join(pieces, sep)
  {
    if |pieces| > 1 {
      JoinWithout(pieces[..|pieces| - 1], sep, c);
    }
  }

  /** Pieces and a separator free of white space join into a string free of white space. */
  lemma {:induction false} JoinNoSpace(pieces: seq<string>, sep: string)
    requires NoSpace(sep)
    requires forall i :: 0 <= i < |pieces| ==> NoSpace(pieces[i])
    ensures NoSpace(Join(pieces, sep))
  {
    if |pieces| > 1 {
      JoinNoSpace(pieces[..|pieces| - 1], sep);
      var front := Join(pieces[..|pieces| - 1], sep);
      var j := front + sep + pieces[|pieces| - 1];
      forall i | 0 <= i < |j|
        ensures !IsSpace(j[i])
      {
        if i < |front| {
          assert j[i] == front[i];
        } else if i < |front| + |sep| {
          assert j[i] == sep[i - |front|];
        } else {
          assert j[i] == pieces[|pieces| - 1][i - |front| - |sep|];
        }
      }
    }
  }

  /** A join whose last piece is non-empty ends with that piece's last character. */
  lemma {:induction false} JoinLast(pieces: seq<string>, sep: string)
    requires |pieces| >= 1 && pieces[|pieces| - 1] != ""
    ensures var j := Join(pieces, sep); |j| >= 1 && j[|j| - 1] == pieces[|pieces| - 1][|pieces[|pieces| - 1]| - 1]
  {
  }

  /** A join whose first piece is non-empty starts with that piece's first character. */
  lemma {:induction false} JoinFirst(pieces: seq<string>, sep: string)
    requires |pieces| >= 1 && pieces[0] != ""
    ensures var j := Join(pieces, sep); |j| >= 1 && j[0] == pieces[0][0]
  {
    if |pieces| > 1 {
      JoinFirst(pieces[..|pieces| - 1], sep);
    }
  }

  /** `pieces.join('')`. */
  function Concat(pieces: seq<string>): string {
    if |pieces| == 0 then "" else Concat(pieces[..|pieces| - 1]) + pieces[|pieces| - 1]
  }

  lemma {:induction false} ConcatAppend(a: seq<string>, b: seq<string>)
    ensures Concat(a + b) == Concat(a) + Concat(b)
  {
    if |b| > 0 {
      assert (a + b)[..|a + b| - 1] == a + b[..|b| - 1];
      ConcatAppend(a, b[..|b| - 1]);
    } else {
      assert a + b == a;
    }
  }

  // ---------------------------------------------------------------------
  // split on a run of white space

  /** `s.split(/\s+/)`: pieces between maximal runs of white space. */
  function SplitSpaces(s: string): (r: seq<string>)
    ensures |r| >= 1
    decreases |s|
  {
    if s == [] then [""]
    else if IsSpace(s[0]) then [""] + SplitSpaces(TrimStart(s[1..]))
    else
      var rest := SplitSpaces(s[1..]);
      [[s[0]] + rest[0]] + rest[1..]
  }

  /** `s.split(/\s+/, limit)`: at most the first `limit` pieces. */
  function SplitSpacesLimit(s: string, limit: nat): seq<string> {
    var all := SplitSpaces(s);
    if |all| <= limit then all else all[..limit]
  }

  lemma {:induction false} SplitSpacesNoSpace(s: string)
    requires NoSpace(s)
    ensures SplitSpaces(s) == [s]
  {
    if s != [] {
      SplitSpacesNoSpace(s[1..]);
      assert [s[0]] + s[1..] == s;
    }
  }

  // ---------------------------------------------------------------------
  // small rewrites

  /** `s.replace(/\r?\n$/, '')`: one trailing line break, `\r\n` or `\n`, is removed. */
  function StripLineEnd(s: string): (r: string)
    ensures r == s || r + "\n" == s || r + "\r\n" == s
    ensures |s| > 0 && s[|s| - 1] != '\n' ==> r == s
  {
    if |s| >= 2 && s[|s| - 2..] == "\r\n" then s[..|s| - 2]
    else if |s| >= 1 && s[|s| - 1] == '\n' then s[..|s| - 1]
    else s
  }

  /** `s.slice(0, -1)`: the last character dropped; the empty string stays empty. */
  function DropLast(s: string): (r: string)
    ensures s == [] ==> r == []
    ensures s != [] ==> r + [s[|s| - 1]] == s
  {
    if s == [] then [] else s[..|s| - 1]
  }

  /** `s.replace(/[c]+/g, '')`: every occurrence of `c` removed. */
  function Without(s: string, c: char): (r: string)
    ensures c !in r
    ensures c !in s ==> r == s
  {
    if s == [] then []
    else (if s[0] == c then [] else [s[0]]) + Without(s[1..], c)
  }

  /** `s.replace(/\D/g, '')`: only the decimal digits kept. */
  function DigitsOnly(s: string): (r: string)
    ensures forall i :: 0 <= i < |r| ==> IsDigit(r[i])
    ensures (forall i :: 0 <= i < |s| ==> IsDigit(s[i])) ==> r == s
  {
    if s == [] then []
    else (if IsDigit(s[0]) then [s[0]] else []) + DigitsOnly(s[1..])
  }

  /** The number of occurrences of `c` in `s`. */
  function Count(s: string, c: char): nat {
    if s == [] then 0 else Count(s[..|s| - 1], c) + (if s[|s| - 1] == c then 1 else 0)
  }

  // ---------------------------------------------------------------------
  // decimal numbers

  function DigitChar(d: nat): (c: char)
    requires d < 10
    ensures IsDigit(c)
  {
    "0123456789"[d]
  }

  function DigitValue(c: char): nat
    requires IsDigit(c)
  {
    (c as int - '0' as int) as nat
  }

  /** The decimal rendering of a natural number, most significant digit first. */
  function Decimal(n: nat): (r: string)
    ensures IsDigits(r)
  {
    if n < 10 then [DigitChar(n)] else Decimal(n / 10) + [DigitChar(n % 10)]
  }

  /** `String(n)` for an integer. */
  function IntToString(n: int): string {
    if n < 0 then "-" + Decimal(-n) else Decimal(n)
  }

  /** `parseInt(s, 10)` for a digit string. */
  function ParseDecimal(s: string): nat
    requires forall i :: 0 <= i < |s| ==> IsDigit(s[i])
  {
    if s == [] then 0 else 10 * ParseDecimal(s[..|s| - 1]) + DigitValue(s[|s| - 1])
  }

  /** Reading back the decimal rendering of a number gives the number. */
  lemma {:induction false} ParseDecimalOfDecimal(n: nat)
    ensures ParseDecimal(Decimal(n)) == n
  {
    if n >= 10 {
      var s := Decimal(n);
      assert s[..|s| - 1] == Decimal(n / 10);
      ParseDecimalOfDecimal(n / 10);
    }
  }

  // ---------------------------------------------------------------------
  // split on line breaks

  /** `s.split(/\r?\n/)`: pieces between the line breaks `\n` and `\r\n`. */
  function SplitLines(s: string): (r: seq<string>)
    ensures |r| >= 1
  {
    if s == [] then [""]
    else if s[0] == '\n' then [""] + SplitLines(s[1..])
    else if s[0] == '\r' && |s| > 1 && s[1] == '\n' then [""] + SplitLines(s[2..])
    else
      var rest := SplitLines(s[1..]);
      [[s[0]] + rest[0]] + rest[1..]
  }

  /** The line breaks that `SplitLines` removes, in order. */
  function LineBreaks(s: string): (r: seq<string>)
    ensures |r| == |SplitLines(s)| - 1
    ensures forall i :: 0 <= i < |r| ==> r[i] == "\n" || r[i] == "\r\n"
  {
    if s == [] then []
    else if s[0] == '\n' then ["\n"] + LineBreaks(s[1..])
    else if s[0] == '\r' && |s| > 1 && s[1] == '\n' then ["\r\n"] + LineBreaks(s[2..])
    else LineBreaks(s[1..])
  }

  /** `pieces[0] + breaks[0] + pieces[1] + ... + pieces[n - 1]`. */
  function Interleave(pieces: seq<string>, breaks: seq<string>): string
    requires |pieces| == |breaks| + 1
  {
    if |breaks| == 0 then pieces[0]
    else pieces[0] + breaks[0] + Interleave(pieces[1..], breaks[1..])
  }

  /** The pieces put back together with the removed line breaks are the original text. */
  lemma {:induction false} SplitLinesRebuild(s: string)
    ensures Interleave(SplitLines(s), LineBreaks(s)) == s
  {
    if s == [] {
    } else if s[0] == '\n' {
      SplitLinesRebuild(s[1..]);
      assert SplitLines(s) == [""] + SplitLines(s[1..]) && LineBreaks(s) == ["\n"] + LineBreaks(s[1..]);
      InterleaveBreak("\n", SplitLines(s[1..]), LineBreaks(s[1..]));
      assert "\n" + s[1..] == s;
    } else if s[0] == '\r' && |s| > 1 && s[1] == '\n' {
      SplitLinesRebuild(s[2..]);
      assert SplitLines(s) == [""] + SplitLines(s[2..]) && LineBreaks(s) == ["\r\n"] + LineBreaks(s[2..]);
      InterleaveBreak("\r\n", SplitLines(s[2..]), LineBreaks(s[2..]));
      assert "\r\n" + s[2..] == s;
    } else {
      SplitLinesRebuild(s[1..]);
      var rest := SplitLines(s[1..]);
      assert SplitLines(s) == [[s[0]] + rest[0]] + rest[1..] && LineBreaks(s) == LineBreaks(s[1..]);
      InterleaveChar(s[0], rest, LineBreaks(s[1..]));
      assert [s[0]] + s[1..] == s;
    }
  }

  /** A break in front: an empty first piece followed by that break. */
  lemma InterleaveBreak(br: string, pieces: seq<string>, breaks: seq<string>)
    requires |pieces| == |breaks| + 1
    ensures Interleave([""] + pieces, [br] + breaks) == br + Interleave(pieces, breaks)
  {
    var p, b := [""] + pieces, [br] + breaks;
    assert p[1..] == pieces && b[1..] == breaks;
    assert Interleave(p, b) == p[0] + b[0] + Interleave(pieces, breaks);
    assert p[0] + b[0] == br;
  }

  /** A character in front joins the first piece. */
  lemma InterleaveChar(c: char, pieces: seq<string>, breaks: seq<string>)
    requires |pieces| == |breaks| + 1
    ensures Interleave([[c] + pieces[0]] + pieces[1..], breaks) == [c] + Interleave(pieces, breaks)
  {
    var joined := [[c] + pieces[0]] + pieces[1..];
    if |breaks| > 0 {
      assert joined[1..] == pieces[1..];
      assert Interleave(joined, breaks) == [c] + pieces[0] + breaks[0] + Interleave(pieces[1..], breaks[1..]);
    }
  }


  function Init(pieces: seq<string>): seq<string>
    requires |pieces| >= 1
  {
    pieces[..|pieces| - 1]
  }

  function Last(pieces: seq<string>): string
    requires |pieces| >= 1
  {
    pieces[|pieces| - 1]
  }

  /**
   * Line splitting does not depend on where the text was cut: the complete
   * lines of `x` followed by the lines of its trailing fragment extended with
   * `y` are the lines of `x + y`.
   */
  lemma {:induction false} SplitLinesAppend(x: string, y: string)
    ensures SplitLines(x + y) == Init(SplitLines(x)) + SplitLines(Last(SplitLines(x)) + y)
  {
    if x == [] {
      assert x + y == y;
    } else if |x| == 1 && x[0] == '\r' {
      assert x[1..] == [];
      assert SplitLines(x[1..]) == [""];
      assert [x[0]] + "" == x;
      assert SplitLines(x) == [x];
    } else if x[0] == '\n' {
      SplitLinesAppend(x[1..], y);
      SplitLinesBreak(x, 1);
      SplitLinesBreak(x + y, 1);
      SplitLinesAfterBreak(x, y, 1);
    } else if x[0] == '\r' && x[1] == '\n' {
      SplitLinesAppend(x[2..], y);
      SplitLinesBreak(x, 2);
      SplitLinesBreak(x + y, 2);
      SplitLinesAfterBreak(x, y, 2);
    } else {
      SplitLinesAppend(x[1..], y);
      SplitLinesAfterChar(x, y);
    }
  }

  /** The inductive step of `SplitLinesAppend` for text that starts with a line break of length `k`. */
  lemma SplitLinesAfterBreak(x: string, y: string, k: nat)
    requires 1 <= k <= |x| && SplitLines(x) == [""] + SplitLines(x[k..])
    requires SplitLines(x + y) == [""] + SplitLines((x + y)[k..])
    requires SplitLines(x[k..] + y) == Init(SplitLines(x[k..])) + SplitLines(Last(SplitLines(x[k..])) + y)
    ensures SplitLines(x + y) == Init(SplitLines(x)) + SplitLines(Last(SplitLines(x)) + y)
  {
    var a := SplitLines(x[k..]);
    SliceAppend(x, y, k);
    ConsStep(SplitLines(x), SplitLines(x + y), a, SplitLines(x[k..] + y), SplitLines(Last(a) + y));
  }

  /** The list shape behind `SplitLinesAfterBreak`, without the splitting. */
  lemma ConsStep(p: seq<string>, q: seq<string>, a: seq<string>, r: seq<string>, b: seq<string>)
    requires |a| >= 1 && p == [""] + a && q == [""] + r && r == Init(a) + b
    ensures q == Init(p) + b && Last(p) == Last(a)
  {
    assert Init(p) == [""] + Init(a);
  }

  lemma SliceAppend(x: string, y: string, k: nat)
    requires k <= |x|
    ensures (x + y)[k..] == x[k..] + y
  {
  }

  lemma SplitLinesBreak(s: string, k: nat)
    requires 1 <= k <= 2 && |s| >= k
    requires k == 1 ==> s[0] == '\n'
    requires k == 2 ==> s[0] == '\r' && s[1] == '\n'
    ensures SplitLines(s) == [""] + SplitLines(s[k..])
  {
  }

  /** The inductive step of `SplitLinesAppend` for text that starts with an ordinary character. */
  lemma SplitLinesAfterChar(x: string, y: string)
    requires x != [] && x[0] != '\n'
    requires x[0] == '\r' ==> |x| > 1 && x[1] != '\n'
    requires SplitLines(x[1..] + y) == Init(SplitLines(x[1..])) + SplitLines(Last(SplitLines(x[1..])) + y)
    ensures SplitLines(x + y) == Init(SplitLines(x)) + SplitLines(Last(SplitLines(x)) + y)
  {
    var c, x' := x[0], x[1..];
    SliceAppend(x, y, 1);
    var p := SplitLines(x');
    var whole := SplitLines(x' + y);
    SplitLinesChar(x);
    SplitLinesChar(x + y);
    if |p| == 1 {
      assert Init(SplitLines(x)) == [];
      SplitLinesRebuild(x');
      assert p[0] == x';
      assert [c] + x' == x;
    } else {
      CharStep([c], p, whole, SplitLines(Last(p) + y));
    }
  }

  /** The list shape behind `SplitLinesAfterChar` when the first piece is complete, without the splitting. */
  lemma CharStep(c: string, p: seq<string>, w: seq<string>, rest: seq<string>)
    requires |p| > 1 && w == Init(p) + rest
    ensures [c + w[0]] + w[1..] == Init([c + p[0]] + p[1..]) + rest
    ensures Last([c + p[0]] + p[1..]) == Last(p)
  {
    assert w[0] == p[0];
    assert w[1..] == Init(p)[1..] + rest;
    assert Init([c + p[0]] + p[1..]) == [c + p[0]] + Init(p)[1..];
  }

  lemma SplitLinesChar(s: string)
    requires s != [] && s[0] != '\n'
    requires s[0] == '\r' ==> |s| > 1 && s[1] != '\n'
    ensures SplitLines(s) == [[s[0]] + SplitLines(s[1..])[0]] + SplitLines(s[1..])[1..]
  {
  }

  /** Text without `\n` is a single line, whatever `\r` it holds. */
  lemma {:induction false} NoNewlineSplitLines(s: string)
    requires '\n' !in s
    ensures SplitLines(s) == [s]
  {
    if s != [] {
      assert '\n' !in s[1..];
      NoNewlineSplitLines(s[1..]);
      assert s[0] in s;
      if |s| > 1 {
        assert s[1] in s;
        SplitLinesChar(s);
        assert [s[0]] + s[1..] == s;
      } else {
        assert s[1..] == [];
        assert SplitLines(s) == [[s[0]] + ""];
        assert [s[0]] + "" == s;
      }
    }
  }

  /** The trailing piece of a split never holds `\n`. */
  lemma {:induction false} LastNoNewline(s: string)
    ensures '\n' !in Last(SplitLines(s))
  {
    if s == [] {
    } else if s[0] == '\n' {
      LastNoNewline(s[1..]);
      LastPrepend("", SplitLines(s[1..]));
    } else if s[0] == '\r' && |s| > 1 && s[1] == '\n' {
      LastNoNewline(s[2..]);
      LastPrepend("", SplitLines(s[2..]));
    } else {
      LastNoNewline(s[1..]);
      var rest := SplitLines(s[1..]);
      assert SplitLines(s) == [[s[0]] + rest[0]] + rest[1..];
      LastJoined([s[0]], rest);
    }
  }

  lemma LastPrepend(a: string, xs: seq<string>)
    requires |xs| >= 1
    ensures Last([a] + xs) == Last(xs)
  {
  }

  lemma LastJoined(c: string, xs: seq<string>)
    requires |xs| >= 1
    ensures Last([c + xs[0]] + xs[1..]) == if |xs| == 1 then c + xs[0] else Last(xs)
  {
  }


  /** The non-empty pieces, in order (what `if (line)` lets through). */
  function NonEmpty(pieces: seq<string>): (r: seq<string>)
    ensures forall i :: 0 <= i < |r| ==> r[i] != ""
  {
    if |pieces| == 0 then []
    else NonEmpty(pieces[..|pieces| - 1]) + (if Last(pieces) == "" then [] else [Last(pieces)])
  }

  lemma {:induction false} NonEmptyAppend(a: seq<string>, b: seq<string>)
    ensures NonEmpty(a + b) == NonEmpty(a) + NonEmpty(b)
  {
    if |b| > 0 {
      assert (a + b)[..|a + b| - 1] == a + b[..|b| - 1];
      NonEmptyAppend(a, b[..|b| - 1]);
    } else {
      assert a + b == a;
    }
  }
}
