/** The PHP built-ins the task tracker leans on, over byte strings.
    A PHP string is a sequence of bytes; here each byte is written as the
    `char` with the same code, so `strlen($s)` is `|s|`. */
module PhpStrings {

  /** PHP's `empty()` on a string: true exactly for "" and "0". */
  predicate Empty(s: string) {
    s == "" || s == "0"
  }

  predicate StartsWith(s: string, prefix: string) {
    |prefix| <= |s| && s[..|prefix|] == prefix
  }

  /** `strpos($s, $sub) !== false`, and JavaScript's `s.includes(sub)`. */
  predicate Contains(s: string, sub: string)
    decreases |s|
  {
    StartsWith(s, sub) || (s != [] && Contains(s[1..], sub))
  }

  lemma ContainsEmpty(s: string)
    ensures Contains(s, "")
  {
    assert StartsWith(s, "");
  }

  /** `sub` occurs in `s` starting at index `i`. */
  predicate OccursAt(s: string, sub: string, i: int) {
    0 <= i <= |s| - |sub| && s[i..i + |sub|] == sub
  }

  /** Contains agrees with the plain definition: some position holds `sub`. */
  lemma {:induction false} ContainsAt(s: string, sub: string)
    ensures Contains(s, sub) <==> exists i :: OccursAt(s, sub, i)
    decreases |s|
  {
    if StartsWith(s, sub) {
      assert OccursAt(s, sub, 0);
    } else if s != [] {
      ContainsAt(s[1..], sub);
      if exists i :: OccursAt(s, sub, i) {
        var i :| OccursAt(s, sub, i);
        assert i != 0;
        assert OccursAt(s[1..], sub, i - 1);
      }
      if exists i :: OccursAt(s[1..], sub, i) {
        var i :| OccursAt(s[1..], sub, i);
        assert s[i + 1..i + 1 + |sub|] == s[1..][i..i + |sub|];
        assert OccursAt(s, sub, i + 1);
      }
    }
  }

  // ---------------------------------------------------------------- trim

  /** The bytes `trim` removes when it is given no character list:
      space, tab, newline, carriage return, NUL and vertical tab. */
  const TrimWhitespace: set<char> := {' ', '\t', '\n', '\r', '\0', '\U{B}'}

  function TrimLeft(s: string, strip: set<char>): (r: string)
    ensures |r| <= |s| && r == s[|s| - |r|..]
    ensures forall c :: c in r ==> c in s
    ensures forall k :: 0 <= k < |s| - |r| ==> s[k] in strip
    ensures r == [] || r[0] !in strip
  {
    if s != [] && s[0] in strip then TrimLeft(s[1..], strip) else s
  }

  function TrimRight(s: string, strip: set<char>): (r: string)
    ensures |r| <= |s| && r == s[..|r|]
    ensures forall c :: c in r ==> c in s
    ensures forall k :: |r| <= k < |s| ==> s[k] in strip
    ensures r == [] || r[|r| - 1] !in strip
  {
    if s != [] && s[|s| - 1] in strip then TrimRight(s[..|s| - 1], strip) else s
  }

  /** `trim($s, $chars)`: removes bytes of `strip` from both ends, nothing else. */
  function Trim(s: string, strip: set<char>): (r: string)
    ensures |r| <= |s|
    ensures forall c :: c in r ==> c in s
    ensures r == [] || (r[0] !in strip && r[|r| - 1] !in strip)
    ensures (s == [] || (s[0] !in strip && s[|s| - 1] !in strip)) ==> r == s
    ensures exists i, j :: StrippedInfix(s, strip, r, i, j)
  {
    InfixOfTrims(s, strip, TrimLeft(s, strip), TrimRight(TrimLeft(s, strip), strip));
    TrimRight(TrimLeft(s, strip), strip)
  }

  /** `r` is `s[i..j]`, and everything before `i` and from `j` on is in `strip`. */
  predicate StrippedInfix(s: string, strip: set<char>, r: string, i: int, j: int) {
    && 0 <= i <= j <= |s| && r == s[i..j]
    && (forall k :: 0 <= k < i ==> s[k] in strip)
    && (forall k :: j <= k < |s| ==> s[k] in strip)
  }

  lemma PrefixOfSuffix(s: string, i: nat, n: nat)
    requires i + n <= |s|
    ensures s[i..][..n] == s[i..i + n]
  {
  }

  /** What the two one-sided trims promise makes their composition an infix
      of `s` with only stripped bytes around it. */
  lemma InfixOfTrims(s: string, strip: set<char>, left: string, r: string)
    requires |left| <= |s| && left == s[|s| - |left|..]
    requires forall k :: 0 <= k < |s| - |left| ==> s[k] in strip
    requires |r| <= |left| && r == left[..|r|]
    requires forall k :: |r| <= k < |left| ==> left[k] in strip
    ensures StrippedInfix(s, strip, r, |s| - |left|, |s| - |left| + |r|)
  {
    var i := |s| - |left|;
    var j := i + |r|;
    PrefixOfSuffix(s, i, |r|);
    forall k | j <= k < |s|
      ensures s[k] in strip
    {
      assert s[k] == left[k - i];
    }
  }

  lemma TrimIdempotent(s: string, strip: set<char>)
    ensures Trim(Trim(s, strip), strip) == Trim(s, strip)
  {
  }

  // ---------------------------------------------------------- stripslashes

  /** `stripslashes`: a backslash is dropped and the byte after it kept,
      except that the pair backslash-zero becomes a NUL byte; a lone
      trailing backslash disappears. */
  function StripSlashes(s: string): (r: string)
    ensures |r| <= |s|
    ensures '\\' !in s ==> r == s
    decreases |s|
  {
    if s == [] then []
    else if s[0] != '\\' then [s[0]] + StripSlashes(s[1..])
    else if |s| == 1 then []
    else (if s[1] == '0' then ['\0'] else [s[1]]) + StripSlashes(s[2..])
  }

  /** `addslashes`, the escaping `stripslashes` undoes: a backslash before
      each quote, double quote and backslash, and NUL written as backslash-zero. */
  function AddSlashes(s: string): (r: string)
    ensures |r| >= |s|
  {
    if s == [] then []
    else
      (if s[0] == '\0' then "\\0"
       else if s[0] == '\'' || s[0] == '"' || s[0] == '\\' then ['\\', s[0]]
       else [s[0]])
      + AddSlashes(s[1..])
  }

  lemma {:induction false} StripSlashesUndoesAddSlashes(s: string)
    ensures StripSlashes(AddSlashes(s)) == s
  {
    if s != [] {
      StripSlashesUndoesAddSlashes(s[1..]);
      var rest := AddSlashes(s[1..]);
      var whole := AddSlashes(s);
      if s[0] == '\0' || s[0] == '\'' || s[0] == '"' || s[0] == '\\' {
        assert whole[0] == '\\' && |whole| >= 2 && whole[2..] == rest;
        assert StripSlashes(whole) == (if whole[1] == '0' then ['\0'] else [whole[1]]) + StripSlashes(rest);
      } else {
        assert whole[0] == s[0] && whole[1..] == rest;
      }
    }
  }

  // ------------------------------------------------------ htmlspecialchars

  /** The five bytes `htmlspecialchars` rewrites (PHP 8.1 defaults, ENT_QUOTES). */
  predicate IsSpecial(c: char) {
    c == '&' || c == '"' || c == '\'' || c == '<' || c == '>'
  }

  predicate NoSpecials(s: string) {
    forall i :: 0 <= i < |s| ==> !IsSpecial(s[i])
  }

  function EscapeChar(c: char): (r: string)
    ensures IsSpecial(c) <==> |r| > 1
    ensures IsSpecial(c) ==> r[0] == '&'
    ensures !IsSpecial(c) ==> r == [c]
  {
    match c
    case '&' => "&amp;"
    case '"' => "&quot;"
    case '\'' => "&#039;"
    case '<' => "&lt;"
    case '>' => "&gt;"
    case _ => [c]
  }

  /** No raw tag bracket or quote. */
  predicate Unmarked(s: string) {
    '<' !in s && '>' !in s && '"' !in s && '\'' !in s
  }

  /** `htmlspecialchars`: the result never holds a raw tag bracket or quote. */
  function HtmlSpecialChars(s: string): (r: string)
    ensures '<' !in r && '>' !in r && '"' !in r && '\'' !in r
    ensures |r| >= |s|
  {
    if s == [] then [] else EscapeChar(s[0]) + HtmlSpecialChars(s[1..])
  }

  /** The inverse of the five substitutions `HtmlSpecialChars` makes: each of
      its entities turns back into its byte, every other byte stays. */
  function HtmlSpecialCharsDecode(r: string): string
    decreases |r|
  {
    if r == [] then []
    else if StartsWith(r, "&amp;") then ['&'] + HtmlSpecialCharsDecode(r[5..])
    else if StartsWith(r, "&quot;") then ['"'] + HtmlSpecialCharsDecode(r[6..])
    else if StartsWith(r, "&#039;") then ['\''] + HtmlSpecialCharsDecode(r[6..])
    else if StartsWith(r, "&lt;") then ['<'] + HtmlSpecialCharsDecode(r[4..])
    else if StartsWith(r, "&gt;") then ['>'] + HtmlSpecialCharsDecode(r[4..])
    else [r[0]] + HtmlSpecialCharsDecode(r[1..])
  }

  lemma DecodeEscapedChar(c: char, t: string)
    ensures HtmlSpecialCharsDecode(EscapeChar(c) + t) == [c] + HtmlSpecialCharsDecode(t)
  {
    match c
    case '&' => DecodeAmp(t);
    case '"' => DecodeQuot(t);
    case '\'' => DecodeApos(t);
    case '<' => DecodeLt(t);
    case '>' => DecodeGt(t);
    case _ => DecodePlain(c, t);
  }

  /** Each entity followed by anything decodes to its byte followed by the decoded rest. */
  lemma DecodeAmp(t: string)
    ensures HtmlSpecialCharsDecode("&amp;" + t) == "&" + HtmlSpecialCharsDecode(t)
  {
    var r := "&amp;" + t;
    assert r[..5] == "&amp;" && r[5..] == t;
  }

  lemma DecodeQuot(t: string)
    ensures HtmlSpecialCharsDecode("&quot;" + t) == "\"" + HtmlSpecialCharsDecode(t)
  {
    var r := "&quot;" + t;
    assert r[1] == 'q';
    PrefixMismatch(r, "&amp;", 1);
    assert r[..6] == "&quot;" && r[6..] == t;
  }

  lemma DecodeApos(t: string)
    ensures HtmlSpecialCharsDecode("&#039;" + t) == "'" + HtmlSpecialCharsDecode(t)
  {
    var r := "&#039;" + t;
    assert r[1] == '#';
    PrefixMismatch(r, "&amp;", 1);
    PrefixMismatch(r, "&quot;", 1);
    assert r[..6] == "&#039;" && r[6..] == t;
  }

  lemma DecodeLt(t: string)
    ensures HtmlSpecialCharsDecode("&lt;" + t) == "<" + HtmlSpecialCharsDecode(t)
  {
    var r := "&lt;" + t;
    assert r[1] == 'l';
    PrefixMismatch(r, "&amp;", 1);
    PrefixMismatch(r, "&quot;", 1);
    PrefixMismatch(r, "&#039;", 1);
    assert r[..4] == "&lt;" && r[4..] == t;
  }

  lemma DecodeGt(t: string)
    ensures HtmlSpecialCharsDecode("&gt;" + t) == ">" + HtmlSpecialCharsDecode(t)
  {
    var r := "&gt;" + t;
    assert r[1] == 'g';
    PrefixMismatch(r, "&amp;", 1);
    PrefixMismatch(r, "&quot;", 1);
    PrefixMismatch(r, "&#039;", 1);
    PrefixMismatch(r, "&lt;", 1);
    assert r[..4] == "&gt;" && r[4..] == t;
  }

  /** A text that differs from `p` at index `k` does not start with `p`. */
  lemma PrefixMismatch(r: string, p: string, k: nat)
    requires k < |p| && k < |r| && r[k] != p[k]
    ensures !StartsWith(r, p)
  {
    assert |p| <= |r| ==> r[..|p|][k] == r[k];
  }

  /** Any other byte decodes to itself. */
  lemma DecodePlain(c: char, t: string)
    requires c != '&'
    ensures HtmlSpecialCharsDecode([c] + t) == [c] + HtmlSpecialCharsDecode(t)
  {
    var r := [c] + t;
    assert r[0] == c && r[1..] == t;
  }

  /** Escaping loses nothing: decoding gives back the input. */
  lemma {:induction false} DecodeUndoesEscape(s: string)
    ensures HtmlSpecialCharsDecode(HtmlSpecialChars(s)) == s
  {
    if s != [] {
      DecodeUndoesEscape(s[1..]);
      DecodeEscapedChar(s[0], HtmlSpecialChars(s[1..]));
    }
  }

  /** Escaping leaves a text without special bytes alone and strictly
      lengthens any other one, which then holds an ampersand. */
  lemma {:induction false} EscapeLengthens(s: string)
    ensures NoSpecials(s) ==> HtmlSpecialChars(s) == s
    ensures !NoSpecials(s) ==> |HtmlSpecialChars(s)| > |s| && '&' in HtmlSpecialChars(s)
  {
    if s != [] {
      EscapeLengthens(s[1..]);
      var e := EscapeChar(s[0]);
      var rest := HtmlSpecialChars(s[1..]);
      assert HtmlSpecialChars(s) == e + rest;
      if IsSpecial(s[0]) {
        assert (e + rest)[0] == '&';
      } else if !NoSpecials(s[1..]) {
        var k :| 0 <= k < |rest| && rest[k] == '&';
        assert (e + rest)[|e| + k] == '&';
      } else {
        assert NoSpecials(s[1..]);
      }
    }
  }

  /** Escaping twice is the same as escaping once exactly when there was
      nothing to escape: an ampersand turns into "&amp;" and then "&amp;amp;". */
  lemma EscapeIdempotentIff(s: string)
    ensures HtmlSpecialChars(HtmlSpecialChars(s)) == HtmlSpecialChars(s) <==> NoSpecials(s)
  {
    EscapeLengthens(s);
    var once := HtmlSpecialChars(s);
    EscapeLengthens(once);
    if !NoSpecials(s) {
      var k :| 0 <= k < |once| && once[k] == '&';
      assert IsSpecial(once[k]);
    }
  }

  // ---------------------------------------------------------------- digits

  predicate IsDigit(c: char) {
    '0' <= c <= '9'
  }

  predicate AllDigits(s: string) {
    forall i :: 0 <= i < |s| ==> IsDigit(s[i])
  }

  function DigitChar(d: nat): (c: char)
    requires d < 10
    ensures IsDigit(c)
  {
    ('0' as int + d) as char
  }

  /** The number a string of decimal digits denotes. */
  function DecimalValue(s: string): nat
    requires AllDigits(s)
  {
    if s == [] then 0
    else DecimalValue(s[..|s| - 1]) * 10 + (s[|s| - 1] as int - '0' as int)
  }

  /** The exactly `width` lowest decimal digits of `n`, zero-padded
      (`%02d`, `%04d`). */
  function Digits(n: nat, width: nat): (r: string)
    ensures |r| == width && AllDigits(r)
  {
    if width == 0 then [] else Digits(n / 10, width - 1) + [DigitChar(n % 10)]
  }

  function Power10(k: nat): nat {
    if k == 0 then 1 else 10 * Power10(k - 1)
  }

  lemma {:induction false} DigitsRoundTrip(n: nat, width: nat)
    requires n < Power10(width)
    ensures DecimalValue(Digits(n, width)) == n
  {
    if width > 0 {
      DigitsRoundTrip(n / 10, width - 1);
      var r := Digits(n, width);
      assert r[..|r| - 1] == Digits(n / 10, width - 1);
    }
  }

  /** PHP's decimal rendering of a non-negative integer (string interpolation). */
  function NatToString(n: nat): (r: string)
    ensures |r| >= 1 && AllDigits(r)
  {
    if n < 10 then [DigitChar(n)] else NatToString(n / 10) + [DigitChar(n % 10)]
  }

  lemma {:induction false} NatToStringRoundTrip(n: nat)
    ensures DecimalValue(NatToString(n)) == n
  {
    var r := NatToString(n);
    if n < 10 {
      assert r[..|r| - 1] == [];
    } else {
      NatToStringRoundTrip(n / 10);
      assert r[..|r| - 1] == NatToString(n / 10);
    }
  }
}
