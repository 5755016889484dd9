/** String utilities: case conversion between camelCase, kebab-case and
    snake_case, capitalisation, HTML escaping and truncation. */
module StringUtils {

  import opened Ascii

  // ---------------------------------------------------------------------
  // camelCase

  /** The class `[-_\s]` of the camelCase pattern. */
  predicate IsSeparator(c: char) {
    c == '-' || c == '_' || IsSpace(c)
  }

  /** str.replace(/[-_\s](\w)/g, c => c.toUpperCase()): scanning from the
      left, a separator followed by a word character is replaced by that
      character upper-cased, and the scan resumes after the pair. */
  function CamelCase(s: string): (r: string)
    ensures |r| <= |s|
    decreases |s|
  {
    if s == [] then []
    else if |s| >= 2 && IsSeparator(s[0]) && IsWordChar(s[1]) then [ToUpper(s[1])] + CamelCase(s[2..])
    else [s[0]] + CamelCase(s[1..])
  }

  predicate NoSeparators(s: string) {
    forall i :: 0 <= i < |s| ==> !IsSeparator(s[i])
  }

  /** Text without separators passes through camelCase unchanged, and the
      scan restarts cleanly after it. */
  lemma {:induction false} CamelCaseSkips(t: string, u: string)
    requires NoSeparators(t)
    ensures CamelCase(t + u) == t + CamelCase(u)
    decreases |t|
  {
    if t != [] {
      var s := t + u;
      assert s[0] == t[0] && !IsSeparator(s[0]) && s[1..] == t[1..] + u;
      assert CamelCase(s) == [t[0]] + CamelCase(t[1..] + u);
      CamelCaseSkips(t[1..], u);
      assert t + CamelCase(u) == [t[0]] + (t[1..] + CamelCase(u));
    } else {
      assert t + u == u;
    }
  }

  /** Text without separators is already in camelCase. */
  lemma CamelCaseIdentity(s: string)
    requires NoSeparators(s)
    ensures CamelCase(s) == s
  {
    CamelCaseSkips(s, []);
    assert s + [] == s;
  }

  // ---------------------------------------------------------------------
  // capitalize

  /** str.charAt(0).toUpperCase() + str.slice(1); '' stays ''. */
  function Capitalize(s: string): (r: string)
    ensures |r| == |s|
    ensures |s| > 0 ==> r[0] == ToUpper(s[0]) && r[1..] == s[1..]
  {
    if s == [] then [] else [ToUpper(s[0])] + s[1..]
  }

  /** Capitalising twice is capitalising once, and only the case of the
      first character changes. */
  lemma CapitalizeProperties(s: string)
    ensures Capitalize(Capitalize(s)) == Capitalize(s)
    ensures Lower(Capitalize(s)) == Lower(s)
  {
    if s != [] {
      LowerOfUpper(s[0]);
      LowerAppend([ToUpper(s[0])], s[1..]);
      LowerAppend([s[0]], s[1..]);
      assert s == [s[0]] + s[1..];
    }
  }

  // ---------------------------------------------------------------------
  // kebabCase, snakeCase

  /** str.replace(/([A-Z])/g, sep + '$1'): `sep` before every capital. */
  function Mark(s: string, sep: char): (r: string)
    ensures |r| >= |s|
  {
    if s == [] then [] else MarkChar(s[0], sep) + Mark(s[1..], sep)
  }

  function MarkChar(c: char, sep: char): string {
    if IsUpper(c) then [sep, c] else [c]
  }

  lemma {:induction false} MarkAppend(a: string, b: string, sep: char)
    ensures Mark(a + b, sep) == Mark(a, sep) + Mark(b, sep)
    decreases |a|
  {
    if a != [] {
      var s := a + b;
      assert s[0] == a[0] && s[1..] == a[1..] + b;
      var head := MarkChar(a[0], sep);
      calc {
        Mark(s, sep);
        head + Mark(a[1..] + b, sep);
        { MarkAppend(a[1..], b, sep); }
        head + (Mark(a[1..], sep) + Mark(b, sep));
        (head + Mark(a[1..], sep)) + Mark(b, sep);
      }
    } else {
      assert a + b == b;
    }
  }

  /** .replace(/^sep/, ''): one leading separator is dropped. */
  function DropLeading(s: string, sep: char): (r: string)
    ensures r == s || (|s| > 0 && s[0] == sep && r == s[1..])
  {
    if |s| > 0 && s[0] == sep then s[1..] else s
  }

  /** The kebab-case and snake_case pipeline with separator `sep`: mark the
      capitals, lower-case everything, drop one leading separator. */
  function Delimit(s: string, sep: char): (r: string)
    ensures forall i :: 0 <= i < |r| ==> !IsUpper(r[i])
  {
    DropLeading(Lower(Mark(s, sep)), sep)
  }

  function KebabCase(s: string): (r: string)
    ensures forall i :: 0 <= i < |r| ==> !IsUpper(r[i])
  {
    Delimit(s, '-')
  }

  function SnakeCase(s: string): (r: string)
    ensures forall i :: 0 <= i < |r| ==> !IsUpper(r[i])
  {
    Delimit(s, '_')
  }

  predicate NoUpper(s: string) {
    forall i :: 0 <= i < |s| ==> !IsUpper(s[i])
  }

  lemma {:induction false} MarkNoUpper(s: string, sep: char)
    requires NoUpper(s)
    ensures Mark(s, sep) == s
    decreases |s|
  {
    if s != [] {
      MarkNoUpper(s[1..], sep);
    }
  }

  lemma LowerNoUpper(s: string)
    requires NoUpper(s)
    ensures Lower(s) == s
  {
  }

  /** Text with no capitals that does not start with the separator is
      already in that case. */
  lemma DelimitIdentity(s: string, sep: char)
    requires NoUpper(s) && (s == [] || s[0] != sep)
    ensures Delimit(s, sep) == s
  {
    MarkNoUpper(s, sep);
    LowerNoUpper(s);
  }

  // ---------------------------------------------------------------------
  // Round trips between the cases

  /** A lower-case word: a lower-case letter, then lower-case letters and
      digits. */
  predicate LowerWord(w: string) {
    |w| >= 1 && IsLower(w[0]) && forall i :: 0 <= i < |w| ==> IsLower(w[i]) || IsDigit(w[i])
  }

  /** Each word preceded by `sep`. */
  function Tail(words: seq<string>, sep: char): string {
    if words == [] then [] else [sep] + words[0] + Tail(words[1..], sep)
  }

  /** words.join(sep). */
  function JoinWith(words: seq<string>, sep: char): string
    requires |words| >= 1
  {
    words[0] + Tail(words[1..], sep)
  }

  /** Each word capitalised. */
  function CapitalizedTail(words: seq<string>): string {
    if words == [] then [] else Capitalize(words[0]) + CapitalizedTail(words[1..])
  }

  /** The camelCase spelling of a list of words. */
  function CamelJoin(words: seq<string>): string
    requires |words| >= 1
  {
    words[0] + CapitalizedTail(words[1..])
  }

  /** A separator and a lower-case word become the capitalised word. */
  lemma CamelCaseOfWord(sep: char, w: string, rest: string)
    requires IsSeparator(sep) && LowerWord(w)
    ensures CamelCase([sep] + w + rest) == Capitalize(w) + CamelCase(rest)
  {
    var s := [sep] + w + rest;
    var up := ToUpper(w[0]);
    assert |s| >= 2 && s[0] == sep && s[1] == w[0] && IsWordChar(w[0]);
    assert s[2..] == w[1..] + rest;
    calc {
      CamelCase(s);
      [up] + CamelCase(w[1..] + rest);
      { CamelCaseSkips(w[1..], rest); }
      [up] + (w[1..] + CamelCase(rest));
      ([up] + w[1..]) + CamelCase(rest);
    }
    assert Capitalize(w) == [up] + w[1..];
  }

  lemma {:induction false} CamelCaseOfTail(words: seq<string>, sep: char)
    requires IsSeparator(sep)
    requires forall i :: 0 <= i < |words| ==> LowerWord(words[i])
    ensures CamelCase(Tail(words, sep)) == CapitalizedTail(words)
  {
    if words != [] {
      CamelCaseOfWord(sep, words[0], Tail(words[1..], sep));
      CamelCaseOfTail(words[1..], sep);
    }
  }

  /** camelCase turns separated lower-case words into their camelCase
      spelling. */
  lemma CamelCaseOfJoined(words: seq<string>, sep: char)
    requires IsSeparator(sep) && |words| >= 1
    requires forall i :: 0 <= i < |words| ==> LowerWord(words[i])
    ensures CamelCase(JoinWith(words, sep)) == CamelJoin(words)
  {
    CamelCaseSkips(words[0], Tail(words[1..], sep));
    CamelCaseOfTail(words[1..], sep);
  }

  /** A capitalised word is marked and lower-cased back to the separator
      and the word. */
  lemma DelimitCapitalized(w: string, sep: char)
    requires !IsUpper(sep) && LowerWord(w)
    ensures Lower(Mark(Capitalize(w), sep)) == [sep] + w
  {
    var up := ToUpper(w[0]);
    assert Capitalize(w) == [up] + w[1..];
    MarkAppend([up], w[1..], sep);
    MarkNoUpper(w[1..], sep);
    assert Mark([up], sep) == [sep, up];
    LowerAppend([sep, up], w[1..]);
    LowerNoUpper(w[1..]);
    LowerOfUpper(w[0]);
    assert Lower([sep, up]) == [sep, w[0]];
    assert [sep, w[0]] + w[1..] == [sep] + w;
  }

  lemma {:induction false} DelimitOfTail(words: seq<string>, sep: char)
    requires !IsUpper(sep)
    requires forall i :: 0 <= i < |words| ==> LowerWord(words[i])
    ensures Lower(Mark(CapitalizedTail(words), sep)) == Tail(words, sep)
  {
    if words != [] {
      var w := words[0];
      var rest := CapitalizedTail(words[1..]);
      MarkAppend(Capitalize(w), rest, sep);
      LowerAppend(Mark(Capitalize(w), sep), Mark(rest, sep));
      DelimitCapitalized(w, sep);
      DelimitOfTail(words[1..], sep);
    }
  }

  /** kebabCase and snakeCase split a camelCase spelling back into its
      words. */
  lemma DelimitOfCamel(words: seq<string>, sep: char)
    requires !IsUpper(sep) && !IsLower(sep) && |words| >= 1
    requires forall i :: 0 <= i < |words| ==> LowerWord(words[i])
    ensures Delimit(CamelJoin(words), sep) == JoinWith(words, sep)
  {
    var w := words[0];
    var rest := CapitalizedTail(words[1..]);
    MarkAppend(w, rest, sep);
    MarkNoUpper(w, sep);
    LowerAppend(w, Mark(rest, sep));
    LowerNoUpper(w);
    DelimitOfTail(words[1..], sep);
  }

  /** Hyphenated lower-case words survive camelCase then kebabCase. */
  lemma KebabCamelRoundTrip(words: seq<string>)
    requires |words| >= 1 && forall i :: 0 <= i < |words| ==> LowerWord(words[i])
    ensures KebabCase(CamelCase(JoinWith(words, '-'))) == JoinWith(words, '-')
  {
    CamelCaseOfJoined(words, '-');
    DelimitOfCamel(words, '-');
  }

  /** Underscored lower-case words survive camelCase then snakeCase. */
  lemma SnakeCamelRoundTrip(words: seq<string>)
    requires |words| >= 1 && forall i :: 0 <= i < |words| ==> LowerWord(words[i])
    ensures SnakeCase(CamelCase(JoinWith(words, '_'))) == JoinWith(words, '_')
  {
    CamelCaseOfJoined(words, '_');
    DelimitOfCamel(words, '_');
  }

  // ---------------------------------------------------------------------
  // escape, unescape

  /** The characters `[&<>"']` escape replaces. */
  predicate IsSpecial(c: char) {
    c == '&' || c == '<' || c == '>' || c == '"' || c == '\''
  }

  /** The entity of one character. */
  function EscapeChar(c: char): (r: string)
    ensures IsSpecial(c) ==> |r| >= 4 && r[0] == '&'
    ensures !IsSpecial(c) ==> r == [c]
  {
    if c == '&' then "&amp;"
    else if c == '<' then "&lt;"
    else if c == '>' then "&gt;"
    else if c == '"' then "&quot;"
    else if c == '\'' then "&#39;"
    else [c]
  }

  /** escape(str): every special character replaced by its entity. */
  function Escape(s: string): (r: string)
    ensures |r| >= |s|
  {
    if s == [] then [] else EscapeChar(s[0]) + Escape(s[1..])
  }

  /** The escaped text contains no markup character but '&'. */
  lemma {:induction false} EscapeNoMarkup(s: string)
    ensures forall i :: 0 <= i < |Escape(s)| ==> !IsSpecial(Escape(s)[i]) || Escape(s)[i] == '&'
  {
    if s != [] {
      EscapeNoMarkup(s[1..]);
      var e := EscapeChar(s[0]);
      assert Escape(s) == e + Escape(s[1..]);
      forall i | 0 <= i < |e| ensures !IsSpecial(e[i]) || e[i] == '&' {
      }
    }
  }

  /** Text without special characters is left as it is. */
  lemma {:induction false} EscapeIdentity(s: string)
    requires forall i :: 0 <= i < |s| ==> !IsSpecial(s[i])
    ensures Escape(s) == s
  {
    if s != [] {
      EscapeIdentity(s[1..]);
    }
  }

  /** unescape(str): scanning from the left, each of the five entities is
      replaced by its character; everything else is kept. */
  function Unescape(s: string): (r: string)
    ensures |r| <= |s|
    decreases |s|
  {
    if s == [] then []
    else if "&amp;" <= s then "&" + Unescape(s[5..])
    else if "&lt;" <= s then "<" + Unescape(s[4..])
    else if "&gt;" <= s then ">" + Unescape(s[4..])
    else if "&quot;" <= s then "\"" + Unescape(s[6..])
    else if "&#39;" <= s then "'" + Unescape(s[5..])
    else [s[0]] + Unescape(s[1..])
  }

  /** One escaped character followed by anything unescapes to that
      character followed by the unescaped rest. */
  lemma UnescapeFront(c: char, rest: string)
    ensures Unescape(EscapeChar(c) + rest) == [c] + Unescape(rest)
  {
    var e := EscapeChar(c);
    var s := e + rest;
    assert s[..|e|] == e && s[|e|..] == rest;
    if !IsSpecial(c) {
      assert s[0] == c;
      assert !("&amp;" <= s) && !("&lt;" <= s) && !("&gt;" <= s) && !("&quot;" <= s) && !("&#39;" <= s) by {
        assert c != '&';
      }
    } else if c == '&' {
    } else if c == '<' {
      assert s[1] == 'l';
    } else if c == '>' {
      assert s[1] == 'g';
    } else if c == '"' {
      assert s[1] == 'q';
    } else {
      assert s[1] == '#';
    }
  }

  /** unescape undoes escape. */
  lemma {:induction false} UnescapeEscape(s: string)
    ensures Unescape(Escape(s)) == s
  {
    if s != [] {
      UnescapeFront(s[0], Escape(s[1..]));
      UnescapeEscape(s[1..]);
    }
  }

  // ---------------------------------------------------------------------
  // truncate

  /** The end index str.slice(0, n) uses: a negative `n` counts from the
      end, and both are clamped to the string. */
  function SliceEnd(n: int, len: nat): (e: nat)
    ensures e <= len
  {
    if n < 0 then (if len + n < 0 then 0 else len + n)
    else if n > len then len
    else n
  }

  /** truncate's default ellipsis. */
  const DefaultEllipsis := "..."

  /** truncate(str, length, ellipsis): the text as it is when it is no
      longer than `length`, otherwise its first `length` characters and
      the ellipsis. */
  function Truncate(s: string, length: int, ellipsis: string): string {
    if |s| > length then s[..SliceEnd(length, |s|)] + ellipsis else s
  }

  /** A text that fits is returned unchanged; a longer one keeps exactly
      its first `length` characters, followed by the ellipsis. */
  lemma TruncateShape(s: string, length: nat, ellipsis: string)
    ensures |s| <= length ==> Truncate(s, length, ellipsis) == s
    ensures |s| > length ==>
      |Truncate(s, length, ellipsis)| == length + |ellipsis|
      && Truncate(s, length, ellipsis)[..length] == s[..length]
      && Truncate(s, length, ellipsis)[length..] == ellipsis
  {
  }

  /** A negative length drops that many characters from the end. */
  lemma TruncateNegative(s: string, length: int, ellipsis: string)
    requires length < 0 && |s| + length >= 0
    ensures Truncate(s, length, ellipsis) == s[..|s| + length] + ellipsis
  {
  }
}
