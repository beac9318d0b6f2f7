/**
 * The escaping codec of `src/util.ts` (and the identical code of `src/util.js`):
 * `unescape` decodes every `%XX` (two hex digits, either case); `_escape`
 * replaces each character of a fixed class by `%` and two upper-case hex
 * digits. `escape` reserves the attribute separators too, `escapeColumn`
 * only line breaks, tabs, `%`, control and high characters.
 */
module Escaping {
  import opened Wrappers
  import opened JsString

  /** The two character classes `_escape` is called with. */
  datatype CharClass =
    | AttributeChars  // `escape`:       [\n;\r\t=%&,\x00-\x1f\x7f-\xff]
    | ColumnChars     // `escapeColumn`: [\n\r\t%\x00-\x1f\x7f-\xff]

  predicate IsReserved(cls: CharClass, c: char) {
    c == '\n' || c == '\r' || c == '\t' || c == '%' ||
    c as int <= 0x1F || (0x7F <= c as int <= 0xFF) ||
    (cls == AttributeChars && (c == ';' || c == '=' || c == '&' || c == ','))
  }

  predicate Clean(cls: CharClass, s: string) {
    forall i :: 0 <= i < |s| ==> !IsReserved(cls, s[i])
  }

  // ---------------------------------------------------------------------
  // hex digits

  predicate IsHexDigit(c: char) {
    ('0' <= c <= '9') || ('A' <= c <= 'F') || ('a' <= c <= 'f')
  }

  predicate IsUpperHexDigit(c: char) {
    ('0' <= c <= '9') || ('A' <= c <= 'F')
  }

  function HexValue(c: char): (v: nat)
    requires IsHexDigit(c)
    ensures v < 16
  {
    if '0' <= c <= '9' then (c as int - '0' as int) as nat
    else if 'A' <= c <= 'F' then (c as int - 'A' as int + 10) as nat
    else (c as int - 'a' as int + 10) as nat
  }

  function HexDigit(d: nat): (c: char)
    requires d < 16
    ensures IsUpperHexDigit(c) && HexValue(c) == d
  {
    "0123456789ABCDEF"[d]
  }

  /** `n.toString(16).toUpperCase()`. */
  function Hex(n: nat): string {
    if n < 16 then [HexDigit(n)] else Hex(n / 16) + [HexDigit(n % 16)]
  }

  /** The hex of a character code as `_escape` writes it: padded with `0` to at least two digits. */
  function PaddedHex(n: nat): string {
    var hex := Hex(n);
    if |hex| < 2 then "0" + hex else hex
  }

  /** Every code below 256 pads to exactly two upper-case hex digits that read back as the code. */
  lemma PaddedHexShape(n: nat)
    requires n < 256
    ensures |PaddedHex(n)| == 2
    ensures IsUpperHexDigit(PaddedHex(n)[0]) && IsUpperHexDigit(PaddedHex(n)[1])
    ensures 16 * HexValue(PaddedHex(n)[0]) + HexValue(PaddedHex(n)[1]) == n
  {
    if n >= 16 {
      assert Hex(n / 16) == [HexDigit(n / 16)];
    }
  }

  // ---------------------------------------------------------------------
  // escape

  /** The replacement `_escape` makes for one character. */
  function EscapeChar(cls: CharClass, c: char): string {
    if IsReserved(cls, c) then "%" + PaddedHex(c as int) else [c]
  }

  /** `_escape(regex, s)`: every character of the class replaced, all others kept. */
  function EscapeWith(cls: CharClass, s: string): string {
    if s == [] then "" else EscapeChar(cls, s[0]) + EscapeWith(cls, s[1..])
  }

  /** `escape(s)`. */
  function Escape(s: string): string {
    EscapeWith(AttributeChars, s)
  }

  /** `escapeColumn(s)`. */
  function EscapeColumn(s: string): string {
    EscapeWith(ColumnChars, s)
  }

  /** A reserved character becomes `%` and two upper-case hex digits of its code; any other stays as it is. */
  lemma EscapeCharShape(cls: CharClass, c: char)
    ensures IsReserved(cls, c) ==>
      var e := EscapeChar(cls, c);
      |e| == 3 && e[0] == '%' && IsUpperHexDigit(e[1]) && IsUpperHexDigit(e[2]) &&
      16 * HexValue(e[1]) + HexValue(e[2]) == c as int
    ensures !IsReserved(cls, c) ==> EscapeChar(cls, c) == [c]
  {
    if IsReserved(cls, c) {
      PaddedHexShape(c as int);
    }
  }

  /** `escapeColumn` never touches the attribute separators `;`, `=`, `&` and `,`; `escape` always does. */
  lemma ColumnKeepsSeparators(c: char)
    requires c == ';' || c == '=' || c == '&' || c == ','
    ensures EscapeChar(ColumnChars, c) == [c]
    ensures EscapeChar(AttributeChars, c) != [c]
  {
  }

  predicate MayEscapeTo(cls: CharClass, s: string, c: char) {
    c == '%' || IsUpperHexDigit(c) || (c in s && !IsReserved(cls, c))
  }

  /**
   * Every character `_escape` writes is `%`, an upper-case hex digit, or a
   * character of the input outside the class.
   */
  lemma {:induction false} EscapedChars(cls: CharClass, s: string)
    ensures forall i :: 0 <= i < |EscapeWith(cls, s)| ==> MayEscapeTo(cls, s, EscapeWith(cls, s)[i])
  {
    if s != [] {
      EscapedChars(cls, s[1..]);
      EscapeCharShape(cls, s[0]);
      var head, tail := EscapeChar(cls, s[0]), EscapeWith(cls, s[1..]);
      assert EscapeWith(cls, s) == head + tail;
      forall i | 0 <= i < |head + tail|
        ensures MayEscapeTo(cls, s, (head + tail)[i])
      {
        if i >= |head| {
          assert (head + tail)[i] == tail[i - |head|];
          if tail[i - |head|] in s[1..] {
            var j :| 0 <= j < |s[1..]| && s[1..][j] == tail[i - |head|];
            assert s[j + 1] == tail[i - |head|];
          }
        } else {
          assert (head + tail)[i] == head[i];
          if !IsReserved(cls, s[0]) {
            assert head[i] == s[0];
          }
        }
      }
    }
  }

  /** The output of `escape` holds none of the attribute separators and no white space the input lacked. */
  lemma EscapeHasNoSeparators(s: string)
    ensures var r := Escape(s);
      ';' !in r && ',' !in r && '\t' !in r && '\n' !in r && '\r' !in r && (NoSpace(s) ==> NoSpace(r))
  {
    var r := EscapeWith(AttributeChars, s);
    EscapedChars(AttributeChars, s);
    forall i | 0 <= i < |r|
      ensures r[i] != ';' && r[i] != ',' && r[i] != '\t' && r[i] != '\n'
      ensures NoSpace(s) ==> !IsSpace(r[i])
    {
      assert MayEscapeTo(AttributeChars, s, r[i]);
      if r[i] in s && NoSpace(s) {
        var j :| 0 <= j < |s| && s[j] == r[i];
      }
    }
  }

  /** The output of `escapeColumn` holds no tab and no line break. */
  lemma EscapeColumnHasNoBreaks(s: string)
    ensures var r := EscapeColumn(s); '\t' !in r && '\n' !in r && '\r' !in r
  {
    var r := EscapeWith(ColumnChars, s);
    EscapedChars(ColumnChars, s);
    forall i | 0 <= i < |r|
      ensures r[i] != '\t' && r[i] != '\n' && r[i] != '\r'
    {
      assert MayEscapeTo(ColumnChars, s, r[i]);
    }
  }

  /** `_escape` is the identity exactly on the strings without a character of its class. */
  lemma {:induction false} EscapeIdentity(cls: CharClass, s: string)
    ensures EscapeWith(cls, s) == s <==> Clean(cls, s)
  {
    EscapeLength(cls, s);
    if s != [] {
      EscapeIdentity(cls, s[1..]);
      EscapeCharShape(cls, s[0]);
      if Clean(cls, s) {
        assert Clean(cls, s[1..]);
        assert [s[0]] + s[1..] == s;
      } else if !IsReserved(cls, s[0]) {
        assert !Clean(cls, s[1..]) by {
          var i :| 0 <= i < |s| && IsReserved(cls, s[i]);
          assert s[1..][i - 1] == s[i];
        }
        var rest := EscapeWith(cls, s[1..]);
        assert rest != s[1..];
        assert EscapeWith(cls, s) == [s[0]] + rest;
        assert ([s[0]] + rest)[1..] == rest;
      }
    }
  }

  /** `_escape` never shortens its input. */
  lemma {:induction false} EscapeLength(cls: CharClass, s: string)
    ensures |EscapeWith(cls, s)| >= |s|
    ensures s != [] && IsReserved(cls, s[0]) ==> |EscapeWith(cls, s)| > |s|
  {
    if s != [] {
      EscapeLength(cls, s[1..]);
      EscapeCharShape(cls, s[0]);
    }
  }

  // ---------------------------------------------------------------------
  // unescape

  /** `String(s).replace(/%([0-9A-Fa-f]{2})/g, ...)`: every `%XX`, scanned left to right, becomes the character with that code. */
  function UnescapeText(s: string): string
    decreases |s|
  {
    if s == [] then ""
    else if |s| >= 3 && s[0] == '%' && IsHexDigit(s[1]) && IsHexDigit(s[2]) then
      [(16 * HexValue(s[1]) + HexValue(s[2])) as char] + UnescapeText(s[3..])
    else [s[0]] + UnescapeText(s[1..])
  }

  /** `unescape(s)`: `null` passes through as `null`, never as the empty string. */
  function Unescape(s: Option<string>): (r: Option<string>)
    ensures r.None? <==> s.None?
    ensures s.Some? ==> r == Some(UnescapeText(s.value))
  {
    match s
    case None => None
    case Some(t) => Some(UnescapeText(t))
  }

  /** Decoding the escape of one character yields that character, followed by the decoding of the rest. */
  lemma UnescapeEscapedChar(cls: CharClass, c: char, rest: string)
    ensures UnescapeText(EscapeChar(cls, c) + rest) == [c] + UnescapeText(rest)
  {
    EscapeCharShape(cls, c);
    var e := EscapeChar(cls, c);
    if IsReserved(cls, c) {
      assert (e + rest)[..3] == e && (e + rest)[3..] == rest;
    } else {
      assert (e + rest)[1..] == rest;
    }
  }

  /** `unescape(escape(s)) == s` and `unescape(escapeColumn(s)) == s`, for every string `s`. */
  lemma {:induction false} UnescapeEscape(cls: CharClass, s: string)
    ensures UnescapeText(EscapeWith(cls, s)) == s
  {
    if s != [] {
      UnescapeEscape(cls, s[1..]);
      UnescapeEscapedChar(cls, s[0], EscapeWith(cls, s[1..]));
      assert [s[0]] + s[1..] == s;
    }
  }

  /** Decoding an escaped string followed by anything decodes each part separately. */
  lemma {:induction false} UnescapeEscapeThen(cls: CharClass, s: string, t: string)
    ensures UnescapeText(EscapeWith(cls, s) + t) == s + UnescapeText(t)
  {
    if s == [] {
      assert EscapeWith(cls, s) + t == t;
    } else {
      UnescapeEscapeStep(cls, s, t);
      UnescapeEscapeThen(cls, s[1..], t);
      ConsAppend(s, UnescapeText(t));
    }
  }

  lemma UnescapeEscapeStep(cls: CharClass, s: string, t: string)
    requires s != []
    ensures UnescapeText(EscapeWith(cls, s) + t) == [s[0]] + UnescapeText(EscapeWith(cls, s[1..]) + t)
  {
    var head, tail := EscapeChar(cls, s[0]), EscapeWith(cls, s[1..]);
    assert EscapeWith(cls, s) == head + tail;
    assert (head + tail) + t == head + (tail + t);
    UnescapeEscapedChar(cls, s[0], tail + t);
  }

  /** The same round trip through the `null`-transparent `unescape`. */
  lemma UnescapeEscapeNullable(s: Option<string>, cls: CharClass)
    ensures Unescape(if s.None? then None else Some(EscapeWith(cls, s.value))) == s
  {
    if s.Some? {
      UnescapeEscape(cls, s.value);
    }
  }
}
