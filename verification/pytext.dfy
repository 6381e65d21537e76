/**
 Python's `repr` of a `str`, and `str` of a pair of strings, which is how
 a county's sort key is spelled: `f"{x[0], x[1]}"` formats the tuple
 `(x[0], x[1])`.
 */
module PyText {

  /** Characters `repr` writes as a `\xhh` escape (within Latin-1). */
  predicate HexEscaped(c: char) {
    var n := c as int;
    n < 0x20 || n == 0x7f || 0x80 <= n <= 0xa0 || n == 0xad
  }

  /** Characters `repr` writes as themselves inside quote `q`. */
  predicate Verbatim(c: char, q: char) {
    c != q && c != '\\' && c != '\t' && c != '\n' && c != '\r' && !HexEscaped(c)
  }

  /** Single quotes, unless the text has a single quote and no double quote. */
  function QuoteFor(s: string): (q: char)
    ensures q == '"' <==> ('\'' in s && '"' !in s)
    ensures q == '\'' || q == '"'
  {
    if '\'' in s && '"' !in s then '"' else '\''
  }

  function HexDigit(n: nat): (d: char)
    requires n < 16
    ensures '0' <= d <= '9' || 'a' <= d <= 'f'
  {
    if n < 10 then ('0' as int + n) as char else ('a' as int + n - 10) as char
  }

  function EscapeChar(c: char, q: char): (r: string)
    ensures Verbatim(c, q) <==> r == [c]
    ensures !Verbatim(c, q) ==> |r| >= 2 && r[0] == '\\'
  {
    if c == q || c == '\\' then ['\\', c]
    else if c == '\t' then "\\t"
    else if c == '\n' then "\\n"
    else if c == '\r' then "\\r"
    else if HexEscaped(c) then ['\\', 'x', HexDigit(c as int / 16), HexDigit(c as int % 16)]
    else [c]
  }

  function Escape(s: string, q: char): (r: string)
    ensures |r| >= |s|
  {
    if |s| == 0 then [] else EscapeChar(s[0], q) + Escape(s[1..], q)
  }

  /** `repr(s)` for a `str`. */
  function Repr(s: string): (r: string)
    ensures |r| >= |s| + 2
    ensures r[0] == QuoteFor(s) && r[|r| - 1] == QuoteFor(s)
  {
    var q := QuoteFor(s);
    [q] + Escape(s, q) + [q]
  }

  /** `str((a, b))` for two strings. */
  function PairStr(a: string, b: string): (r: string)
    ensures |r| == |Repr(a)| + |Repr(b)| + 4
    ensures r[0] == '(' && r[|r| - 1] == ')'
  {
    "(" + Repr(a) + ", " + Repr(b) + ")"
  }

  predicate IsHexDigit(d: char) {
    '0' <= d <= '9' || 'a' <= d <= 'f'
  }

  function HexValue(d: char): (n: nat)
    requires IsHexDigit(d)
    ensures n < 16 && HexDigit(n) == d
  {
    if d <= '9' then d as int - '0' as int else d as int - 'a' as int + 10
  }

  /**
   Reads one character back from the front of escaped text: the character
   and how many characters of `s` spelled it. It needs no knowledge of the
   quote, since a quote is always written escaped or verbatim.
   */
  function DecodeChar(s: string): (char, nat)
    requires |s| > 0
  {
    if s[0] != '\\' || |s| < 2 then (s[0], 1)
    else if s[1] == 't' then ('\t', 2)
    else if s[1] == 'n' then ('\n', 2)
    else if s[1] == 'r' then ('\r', 2)
    else if s[1] == 'x' && |s| >= 4 && IsHexDigit(s[2]) && IsHexDigit(s[3]) then
      ((16 * HexValue(s[2]) + HexValue(s[3])) as char, 4)
    else (s[1], 2)
  }

  /** Whatever follows, the escape of `c` decodes back to `c` and its own length. */
  lemma DecodeEscapeChar(c: char, q: char, t: string)
    requires q == '\'' || q == '"'
    ensures DecodeChar(EscapeChar(c, q) + t) == (c, |EscapeChar(c, q)|)
  {
    var e := EscapeChar(c, q);
    if !Verbatim(c, q) && c != q && c != '\\' && c != '\t' && c != '\n' && c != '\r' {
      var n := c as int;
      assert e == ['\\', 'x', HexDigit(n / 16), HexDigit(n % 16)];
      var s := e + t;
      assert s[2] == HexDigit(n / 16) && s[3] == HexDigit(n % 16);
      assert 16 * HexValue(s[2]) + HexValue(s[3]) == n;
    }
  }

  /** An escaped character never begins with the quote that closes the text. */
  lemma EscapeNotQuote(s: string, q: char)
    requires q == '\'' || q == '"'
    requires |s| > 0
    ensures |Escape(s, q)| > 0 && Escape(s, q)[0] != q
  {
    assert Escape(s, q) == EscapeChar(s[0], q) + Escape(s[1..], q);
  }

  /** Escaped text with its closing quote starts with the quote iff the text is empty. */
  lemma EmptyIffQuoteFirst(a: string, q: char, t: string)
    requires q == '\'' || q == '"'
    ensures |a| == 0 <==> (Escape(a, q) + [q] + t)[0] == q
  {
    if |a| > 0 {
      EscapeNotQuote(a, q);
    }
  }

  lemma EscapeQuoteCons(a: string, q: char, t: string)
    requires |a| > 0
    ensures Escape(a, q) + [q] + t == EscapeChar(a[0], q) + (Escape(a[1..], q) + [q] + t)
  {
  }

  /** Two escaped characters that begin equal texts are the same, and so are the rests. */
  lemma EscapeCharPrefix(c1: char, c2: char, q: char, u: string, v: string)
    requires q == '\'' || q == '"'
    requires EscapeChar(c1, q) + u == EscapeChar(c2, q) + v
    ensures c1 == c2 && u == v
  {
    var e1, e2 := EscapeChar(c1, q), EscapeChar(c2, q);
    DecodeEscapeChar(c1, q, u);
    DecodeEscapeChar(c2, q, v);
    assert u == (e1 + u)[|e1|..];
    assert v == (e2 + v)[|e2|..];
  }

  /**
   Escaped text followed by its closing quote determines both the text and
   whatever comes after the quote.
   */
  lemma {:induction false} EscapeQuoteInjective(a: string, b: string, q: char, t1: string, t2: string)
    requires q == '\'' || q == '"'
    requires Escape(a, q) + [q] + t1 == Escape(b, q) + [q] + t2
    ensures a == b && t1 == t2
    decreases |a|
  {
    EmptyIffQuoteFirst(a, q, t1);
    EmptyIffQuoteFirst(b, q, t2);
    if |a| == 0 {
      assert Escape(a, q) + [q] + t1 == [q] + t1;
      assert Escape(b, q) + [q] + t2 == [q] + t2;
      assert t1 == ([q] + t1)[1..];
    } else {
      EscapeQuoteCons(a, q, t1);
      EscapeQuoteCons(b, q, t2);
      EscapeCharPrefix(a[0], b[0], q, Escape(a[1..], q) + [q] + t1, Escape(b[1..], q) + [q] + t2);
      EscapeQuoteInjective(a[1..], b[1..], q, t1, t2);
      assert a == [a[0]] + a[1..] && b == [b[0]] + b[1..];
    }
  }

  /** `repr` text followed by anything determines the string and what follows. */
  lemma ReprPrefixInjective(a: string, b: string, t1: string, t2: string)
    requires Repr(a) + t1 == Repr(b) + t2
    ensures a == b && t1 == t2
  {
    var qa, qb := QuoteFor(a), QuoteFor(b);
    var l, r := Repr(a) + t1, Repr(b) + t2;
    assert l[0] == qa && r[0] == qb;
    assert l == [qa] + (Escape(a, qa) + [qa] + t1);
    assert r == [qb] + (Escape(b, qb) + [qb] + t2);
    assert Escape(a, qa) + [qa] + t1 == l[1..] == r[1..] == Escape(b, qa) + [qa] + t2;
    EscapeQuoteInjective(a, b, qa, t1, t2);
  }

  /** `repr` never gives two strings the same spelling. */
  lemma ReprInjective(a: string, b: string)
    ensures Repr(a) == Repr(b) ==> a == b
  {
    if Repr(a) == Repr(b) {
      assert Repr(a) + [] == Repr(b) + [];
      ReprPrefixInjective(a, b, [], []);
    }
  }

  lemma PairStrShape(a: string, b: string)
    ensures PairStr(a, b) == "(" + (Repr(a) + (", " + (Repr(b) + ")")))
  {
  }

  /** Equal texts that start with the same prefix agree on the rest. */
  lemma CommonPrefix(p: string, x: string, y: string)
    requires p + x == p + y
    ensures x == y
  {
    assert x == (p + x)[|p|..];
    assert y == (p + y)[|p|..];
  }

  /** Two pairs with the same text are the same pair. */
  lemma PairStrInjective(a: string, b: string, c: string, d: string)
    ensures PairStr(a, b) == PairStr(c, d) ==> a == c && b == d
  {
    if PairStr(a, b) == PairStr(c, d) {
      PairStrShape(a, b);
      PairStrShape(c, d);
      CommonPrefix("(", Repr(a) + (", " + (Repr(b) + ")")), Repr(c) + (", " + (Repr(d) + ")")));
      ReprPrefixInjective(a, c, ", " + (Repr(b) + ")"), ", " + (Repr(d) + ")"));
      CommonPrefix(", ", Repr(b) + ")", Repr(d) + ")");
      ReprPrefixInjective(b, d, ")", ")");
    }
  }

  /** Text with nothing to escape under quote `q` is copied unchanged. */
  lemma {:induction false} EscapeVerbatim(s: string, q: char)
    requires forall i :: 0 <= i < |s| ==> Verbatim(s[i], q)
    ensures Escape(s, q) == s
    decreases |s|
  {
    if |s| > 0 {
      EscapeVerbatim(s[1..], q);
      assert s == [s[0]] + s[1..];
    }
  }

  /** A name with no quote, backslash or control character: nothing in it is escaped. */
  predicate PlainName(s: string) {
    forall i :: 0 <= i < |s| ==> Verbatim(s[i], '\'') && s[i] != '"'
  }

  /**
   For ordinary names (no quote, backslash or control character) the key is
   the familiar `('name', 'state')` spelling.
   */
  lemma PlainPairStr(a: string, b: string)
    ensures PlainName(a) && PlainName(b) ==> PairStr(a, b) == "('" + a + "', '" + b + "')"
  {
    if PlainName(a) && PlainName(b) {
      assert '\'' !in a && '\'' !in b;
      EscapeVerbatim(a, '\'');
      EscapeVerbatim(b, '\'');
    }
  }

  /** A name holding an apostrophe but no double quote is spelled in double quotes. */
  lemma ApostropheRepr(s: string)
    requires '\'' in s && '"' !in s
    requires forall i :: 0 <= i < |s| ==> s[i] == '\'' || (Verbatim(s[i], '"'))
    ensures Repr(s) == "\"" + s + "\""
  {
    EscapeVerbatim(s, '"');
  }
}
