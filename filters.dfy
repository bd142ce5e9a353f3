/** The two template filters of `sciwyrm.filters`: `quote` and `json_escape`. */
module Filters {

  // ----- quote -----

  /** `quote(value)`: wrap the value, unaltered, in a delimiter chosen from the quote characters
      it contains: `"` when it has none, `'` when it has a `"` and no `'`, `"""` when it has both. */
  function Quote(value: string): (r: string)
    ensures |r| == |value| + 2 || |r| == |value| + 6
    ensures |r| == |value| + 6 <==> '"' in value && '\'' in value
    ensures |r| == |value| + 2 ==> r[0] == r[|r| - 1] && r[0] !in value && r[1..|r| - 1] == value
    ensures |r| == |value| + 2 ==> r[0] == (if '"' in value then '\'' else '"')
    ensures |r| == |value| + 6 ==> r[..3] == r[|r| - 3..] == TripleQuote && r[3..|r| - 3] == value
  {
    if '"' in value then
      if '\'' in value then TripleQuote + value + TripleQuote
      else "'" + value + "'"
    else "\"" + value + "\""
  }

  const TripleQuote: string := "\"\"\""

  /** Strip the delimiter `Quote` put around a value. */
  function Unquote(r: string): string {
    if |r| >= 6 && r[..3] == TripleQuote && r[|r| - 3..] == TripleQuote then r[3..|r| - 3]
    else if |r| >= 2 then r[1..|r| - 1]
    else r
  }

  /** Stripping the delimiter gives the value back. */
  lemma QuoteRoundTrip(value: string)
    ensures Unquote(Quote(value)) == value
  {
    var r := Quote(value);
    if |r| == |value| + 2 && |r| >= 6 {
      assert r[1] == value[0];
      assert r[1] != '"' || r[0] != '"';
    }
  }

  // ----- json_escape -----

  /** Python's `s.replace(target, replacement)` for a one-character `target`: every occurrence, left to right. */
  function ReplaceChar(s: string, target: char, replacement: string): string
    decreases |s|
  {
    if s == [] then []
    else (if s[0] == target then replacement else [s[0]]) + ReplaceChar(s[1..], target, replacement)
  }

  /** `json_escape(value)`: backslashes are doubled first, then every `"` gets a backslash. The
      result escapes each character on its own, is well escaped, reads back as the value and is
      longer by one character per backslash and per `"`. */
  function JsonEscape(value: string): (r: string)
    ensures r == EscapeEach(value)
    ensures WellEscaped(r) && Unescape(r) == value
    ensures |r| == |value| + Count(value, '\\') + Count(value, '"')
  {
    JsonEscapeIsEscapeEach(value);
    EscapeEachRoundTrip(value);
    EscapeEachLength(value);
    ReplaceChar(ReplaceChar(value, '\\', "\\\\"), '"', "\\\"")
  }

  /** How one input character is written by `json_escape`. */
  function EscapeChar(c: char): (r: string)
    ensures |r| == if c == '\\' || c == '"' then 2 else 1
  {
    if c == '\\' then "\\\\"
    else if c == '"' then "\\\""
    else [c]
  }

  /** Character-by-character escaping, the single-pass reading of the two chained replacements. */
  function EscapeEach(s: string): string
    decreases |s|
  {
    if s == [] then [] else EscapeChar(s[0]) + EscapeEach(s[1..])
  }

  /** Reads `\x` as `x`; any other character stands for itself. */
  function Unescape(s: string): string
    decreases |s|
  {
    if s == [] then []
    else if s[0] == '\\' && |s| >= 2 then [s[1]] + Unescape(s[2..])
    else [s[0]] + Unescape(s[1..])
  }

  /** The strings `json_escape` can produce: a backslash always starts one of the two escapes `\\`
      and `\"`, and no `"` stands on its own. */
  predicate WellEscaped(s: string)
    decreases |s|
  {
    if s == [] then true
    else if s[0] == '\\' then |s| >= 2 && (s[1] == '\\' || s[1] == '"') && WellEscaped(s[2..])
    else s[0] != '"' && WellEscaped(s[1..])
  }

  function Count(s: string, c: char): nat
    decreases |s|
  {
    if s == [] then 0 else (if s[0] == c then 1 else 0) + Count(s[1..], c)
  }

  lemma {:induction false} ReplaceCharAppend(a: string, b: string, target: char, replacement: string)
    ensures ReplaceChar(a + b, target, replacement) == ReplaceChar(a, target, replacement) + ReplaceChar(b, target, replacement)
    decreases |a|
  {
    if a == [] {
      assert a + b == b;
    } else {
      assert (a + b)[1..] == a[1..] + b;
      ReplaceCharAppend(a[1..], b, target, replacement);
    }
  }

  /** The chained replacements escape each character on its own. This relies on the order: the
      backslashes that the second replacement inserts are not doubled again. */
  lemma {:induction false} JsonEscapeIsEscapeEach(value: string)
    ensures ReplaceChar(ReplaceChar(value, '\\', "\\\\"), '"', "\\\"") == EscapeEach(value)
    decreases |value|
  {
    if value != [] {
      var c, rest := value[0], value[1..];
      assert value == [c] + rest;
      ReplaceCharAppend([c], rest, '\\', "\\\\");
      var once := ReplaceChar([c], '\\', "\\\\");
      ReplaceCharAppend(once, ReplaceChar(rest, '\\', "\\\\"), '"', "\\\"");
      assert ReplaceChar(once, '"', "\\\"") == EscapeChar(c) by {
        if c == '\\' {
          assert once == "\\\\" == ['\\'] + ['\\'];
          ReplaceCharAppend(['\\'], ['\\'], '"', "\\\"");
        }
      }
      JsonEscapeIsEscapeEach(rest);
    }
  }

  /** Each backslash and each `"` adds one character; nothing else changes length. */
  lemma {:induction false} EscapeEachLength(value: string)
    ensures |EscapeEach(value)| == |value| + Count(value, '\\') + Count(value, '"')
    decreases |value|
  {
    if value != [] {
      EscapeEachLength(value[1..]);
    }
  }

  /** A string with no backslash and no `"` is left as it is. */
  lemma {:induction false} JsonEscapeIdentity(value: string)
    requires '\\' !in value && '"' !in value
    ensures JsonEscape(value) == value
    decreases |value|
  {
    EscapeEachIdentity(value);
  }

  lemma {:induction false} EscapeEachIdentity(value: string)
    requires '\\' !in value && '"' !in value
    ensures EscapeEach(value) == value
    decreases |value|
  {
    if value != [] {
      assert value[0] in value;
      assert forall c :: c in value[1..] ==> c in value;
      EscapeEachIdentity(value[1..]);
    }
  }

  /** Reading the escapes back gives the original string, and the output is well escaped. */
  lemma {:induction false} EscapeEachRoundTrip(value: string)
    ensures WellEscaped(EscapeEach(value))
    ensures Unescape(EscapeEach(value)) == value
    decreases |value|
  {
    if value != [] {
      var c, rest := value[0], value[1..];
      var e, tail := EscapeChar(c), EscapeEach(rest);
      EscapeEachRoundTrip(rest);
      assert EscapeEach(value) == e + tail;
      if c == '\\' || c == '"' {
        assert (e + tail)[2..] == tail;
      } else {
        assert (e + tail)[1..] == tail;
      }
      assert value == [c] + rest;
    }
  }

  /** Every well-escaped string is the escaping of its reading: `json_escape` maps onto exactly
      the well-escaped strings. */
  lemma {:induction false} JsonEscapeOnto(s: string)
    requires WellEscaped(s)
    ensures JsonEscape(Unescape(s)) == s
    decreases |s|
  {
    EscapeEachOnto(s);
  }

  lemma {:induction false} EscapeEachOnto(s: string)
    requires WellEscaped(s)
    ensures EscapeEach(Unescape(s)) == s
    decreases |s|
  {
    if s != [] {
      if s[0] == '\\' {
        EscapeEachOnto(s[2..]);
        assert Unescape(s) == [s[1]] + Unescape(s[2..]);
        assert EscapeEach(Unescape(s)) == EscapeChar(s[1]) + EscapeEach(Unescape(s[2..]));
        assert s == s[..2] + s[2..];
      } else {
        EscapeEachOnto(s[1..]);
        assert Unescape(s) == [s[0]] + Unescape(s[1..]);
        assert EscapeEach(Unescape(s)) == EscapeChar(s[0]) + EscapeEach(Unescape(s[1..]));
        assert s == [s[0]] + s[1..];
      }
    }
  }

  /** In a well-escaped string every `"` comes right after a backslash. */
  lemma {:induction false} WellEscapedQuotesPreceded(s: string)
    requires WellEscaped(s)
    ensures forall i :: 0 <= i < |s| && s[i] == '"' ==> i > 0 && s[i - 1] == '\\'
    decreases |s|
  {
    if s != [] {
      var skip := if s[0] == '\\' then 2 else 1;
      WellEscapedQuotesPreceded(s[skip..]);
      forall i | 0 <= i < |s| && s[i] == '"' ensures i > 0 && s[i - 1] == '\\' {
        if i >= skip {
          assert s[i] == s[skip..][i - skip];
          if i - skip > 0 {
            assert s[i - 1] == s[skip..][i - skip - 1];
          }
        }
      }
    }
  }

  /** Every `"` in the output of `json_escape` is escaped by the character before it. */
  lemma JsonEscapeQuotesEscaped(value: string)
    ensures forall i :: 0 <= i < |JsonEscape(value)| && JsonEscape(value)[i] == '"' ==>
              i > 0 && JsonEscape(value)[i - 1] == '\\'
  {
    WellEscapedQuotesPreceded(JsonEscape(value));
  }

  /** The other order of the two replacements would double the backslash it inserts for a `"`, and
      reading the result back would no longer give the input. */
  lemma EscapeOrderMatters()
    ensures var swapped := ReplaceChar(ReplaceChar("\"", '"', "\\\""), '\\', "\\\\");
            swapped == "\\\\\"" && Unescape(swapped) != "\""
  {
    var once := ReplaceChar("\"", '"', "\\\"");
    assert once == "\\\"";
    assert ReplaceChar(once, '\\', "\\\\") == "\\\\" + ReplaceChar("\"", '\\', "\\\\");
  }
}
