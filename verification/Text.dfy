/** The string operations the lease file and the MAC text form rest on. */
module Text {
  import opened Base

  // ---- Numbers ----

  function Digit(n: int): char
    requires 0 <= n < 16
  {
    if n < 10 then '0' + n as char else 'a' + (n - 10) as char
  }

  function DigitValue(c: char, radix: nat): (r: Option<nat>)
    requires radix == 10 || radix == 16
    ensures r.Some? ==> r.value < radix
  {
    if '0' <= c <= '9' then Some((c - '0') as int)
    else if radix == 16 && 'a' <= c <= 'f' then Some((c - 'a') as int + 10)
    else if radix == 16 && 'A' <= c <= 'F' then Some((c - 'A') as int + 10)
    else None
  }

  function ParseDigits(s: string, radix: nat, acc: nat): Option<nat>
    requires radix == 10 || radix == 16
  {
    if s == "" then Some(acc)
    else
      var d := DigitValue(s[0], radix);
      if d.None? then None else ParseDigits(s[1..], radix, acc * radix + d.value)
  }

  /** Unsigned parsing as the standard library does it: an optional `+`, then one or more digits, at most `max`. */
  function ParseUnsigned(s: string, radix: nat, max: nat): (r: Option<nat>)
    requires radix == 10 || radix == 16
    ensures r.Some? ==> r.value <= max
  {
    if s == "" then None
    else
      var digits := if s[0] == '+' && |s| > 1 then s[1..] else s;
      var r := ParseDigits(digits, radix, 0);
      if r.Some? && r.value <= max then r else None
  }

  function Decimal(n: nat): (s: string)
    ensures |s| > 0
    ensures forall i :: 0 <= i < |s| ==> '0' <= s[i] <= '9'
    ensures n >= 10 ==> '1' <= s[0]
    ensures n != 0 ==> s[0] != '0'
  {
    if n < 10 then [Digit(n)] else Decimal(n / 10) + [Digit(n % 10)]
  }

  lemma {:induction false} ParseDigitsAppend(s: string, c: char, radix: nat, acc: nat)
    requires radix == 10 || radix == 16
    requires ParseDigits(s, radix, acc).Some? && DigitValue(c, radix).Some?
    ensures ParseDigits(s + [c], radix, acc)
         == Some(ParseDigits(s, radix, acc).value * radix + DigitValue(c, radix).value)
  {
    if s == "" {
      assert (s + [c])[1..] == "";
    } else {
      assert (s + [c])[1..] == s[1..] + [c];
      ParseDigitsAppend(s[1..], c, radix, acc * radix + DigitValue(s[0], radix).value);
    }
  }

  lemma {:induction false} ParseDigitsDecimal(n: nat)
    ensures ParseDigits(Decimal(n), 10, 0) == Some(n)
  {
    if n < 10 {
      assert Decimal(n)[1..] == "";
    } else {
      ParseDigitsDecimal(n / 10);
      ParseDigitsAppend(Decimal(n / 10), Digit(n % 10), 10, 0);
    }
  }

  lemma ParseDecimal(n: nat, max: nat)
    requires n <= max
    ensures ParseUnsigned(Decimal(n), 10, max) == Some(n)
  {
    ParseDigitsDecimal(n);
  }

  lemma {:induction false} ParseDigitsFront(s: string, acc: nat)
    requires s != "" && ParseDigits(s, 10, acc).Some?
    ensures ParseDigits(s[..|s| - 1], 10, acc).Some? && DigitValue(s[|s| - 1], 10).Some?
  {
    if |s| > 1 {
      ParseDigitsFront(s[1..], acc * 10 + DigitValue(s[0], 10).value);
      assert s[..|s| - 1][1..] == s[1..][..|s| - 2];
    } else {
      assert s[1..] == "";
    }
  }

  lemma DigitOfValue(c: char)
    requires DigitValue(c, 10).Some?
    ensures Digit(DigitValue(c, 10).value) == c
  {
  }

  /** Without leading zeros, text that reads as a number is the number as printed. */
  lemma {:induction false} DigitsArePrinted(s: string, n: nat)
    requires s != "" && ParseDigits(s, 10, 0) == Some(n) && (|s| > 1 ==> s[0] != '0')
    ensures s == Decimal(n)
    decreases |s|
  {
    var front, c := s[..|s| - 1], s[|s| - 1];
    assert s == front + [c];
    ParseDigitsFront(s, 0);
    DigitOfValue(c);
    ParseDigitsAppend(front, c, 10, 0);
    var v, d := ParseDigits(front, 10, 0).value, DigitValue(c, 10).value;
    assert n == 10 * v + d && 0 <= d < 10;
    if front != "" {
      DigitsArePrinted(front, v);
      assert front[0] == s[0];
      assert v != 0 by {
        assert Decimal(0) == "0";
      }
      assert n / 10 == v && n % 10 == d;
    }
  }

  // ---- Splitting ----

  /** All pieces between occurrences of `c`; a string without `c` is one piece. */
  function SplitOn(s: string, c: char): (parts: seq<string>)
    ensures |parts| > 0
  {
    if s == "" then [""]
    else if s[0] == c then [""] + SplitOn(s[1..], c)
    else
      var parts := SplitOn(s[1..], c);
      [[s[0]] + parts[0]] + parts[1..]
  }

  lemma {:induction false} SplitOnPiece(p: string, c: char)
    requires c !in p
    ensures SplitOn(p, c) == [p]
  {
    if p != "" {
      SplitOnPiece(p[1..], c);
      assert [p[0]] + p[1..] == p;
    }
  }

  lemma {:induction false} SplitOnStep(p: string, c: char, rest: string)
    requires c !in p
    ensures SplitOn(p + [c] + rest, c) == [p] + SplitOn(rest, c)
  {
    var s := p + [c] + rest;
    if p == "" {
      assert s[1..] == rest;
    } else {
      SplitOnStep(p[1..], c, rest);
      assert s[1..] == p[1..] + [c] + rest;
      assert [p[0]] + p[1..] == p;
    }
  }

  function Join(parts: seq<string>, sep: char): string {
    if parts == [] then ""
    else if |parts| == 1 then parts[0]
    else parts[0] + [sep] + Join(parts[1..], sep)
  }

  /** Splitting undoes joining when no piece holds the separator. */
  lemma {:induction false} SplitJoin(parts: seq<string>, sep: char)
    requires parts != [] && forall i :: 0 <= i < |parts| ==> sep !in parts[i]
    ensures SplitOn(Join(parts, sep), sep) == parts
  {
    if |parts| == 1 {
      SplitOnPiece(parts[0], sep);
    } else {
      SplitJoin(parts[1..], sep);
      SplitOnStep(parts[0], sep, Join(parts[1..], sep));
    }
  }

  /** The Unicode White_Space characters. */
  predicate Whitespace(c: char) {
    var n := c as int;
    9 <= n <= 13 || n == 0x20 || n == 0x85 || n == 0xA0 || n == 0x1680 || 0x2000 <= n <= 0x200A
    || n == 0x2028 || n == 0x2029 || n == 0x202F || n == 0x205F || n == 0x3000
  }

  /** A non-empty run of characters without whitespace. */
  predicate Token(s: string) {
    s != "" && forall i :: 0 <= i < |s| ==> !Whitespace(s[i])
  }

  lemma {:induction false} JoinIsToken(parts: seq<string>, sep: char)
    requires parts != [] && !Whitespace(sep) && forall i :: 0 <= i < |parts| ==> Token(parts[i])
    ensures Token(Join(parts, sep)) && Token(parts[0]) && Join(parts, sep)[0] == parts[0][0]
  {
    if |parts| > 1 {
      JoinIsToken(parts[1..], sep);
    }
  }

  function TokenLength(s: string): (n: nat)
    ensures n <= |s|
    ensures forall i :: 0 <= i < n ==> !Whitespace(s[i])
    ensures n < |s| ==> Whitespace(s[n])
  {
    if s == "" || Whitespace(s[0]) then 0 else 1 + TokenLength(s[1..])
  }

  function SplitWhitespace(s: string): (tokens: seq<string>)
    ensures forall i :: 0 <= i < |tokens| ==> Token(tokens[i])
    decreases |s|
  {
    if s == "" then []
    else if Whitespace(s[0]) then SplitWhitespace(s[1..])
    else [s[..TokenLength(s)]] + SplitWhitespace(s[TokenLength(s)..])
  }

  lemma SplitWhitespaceToken(t: string, rest: string)
    requires Token(t)
    requires rest == "" || Whitespace(rest[0])
    ensures SplitWhitespace(t + rest) == [t] + SplitWhitespace(rest)
  {
    var s := t + rest;
    var n := TokenLength(s);
    assert s[|t|..] == rest && s[..|t|] == t;
    assert forall i :: 0 <= i < |t| ==> s[i] == t[i];
    assert n >= |t|;
    assert |t| < |s| ==> s[|t|] == rest[0];
    assert n == |t|;
    assert !Whitespace(s[0]) by { assert s[0] == t[0]; }
  }

  /** Words joined by single spaces come apart into the same words. */
  lemma {:induction false} SplitWords(words: seq<string>)
    requires forall i :: 0 <= i < |words| ==> Token(words[i])
    ensures SplitWhitespace(Join(words, ' ')) == words
  {
    if |words| == 1 {
      SplitWhitespaceToken(words[0], "");
      assert words[0] + "" == words[0];
    } else if |words| > 1 {
      var rest := Join(words[1..], ' ');
      SplitWords(words[1..]);
      SplitWhitespaceToken(words[0], [' '] + rest);
      assert ([' '] + rest)[1..] == rest;
      assert words[0] + [' '] + rest == words[0] + ([' '] + rest);
    }
  }

  lemma TokenHasNoLineFeed(t: string)
    requires Token(t)
    ensures '\n' !in t
  {
    assert Whitespace('\n');
  }

  /** A joined line starts with its first word and ends with its last one, and has no line feed. */
  lemma {:induction false} JoinEnds(words: seq<string>)
    requires words != [] && forall i :: 0 <= i < |words| ==> Token(words[i])
    ensures var s := Join(words, ' ');
            var first, last := words[0], words[|words| - 1];
            && Token(first) && Token(last)
            && s != "" && s[0] == first[0] && s[|s| - 1] == last[|last| - 1] && '\n' !in s
  {
    TokenHasNoLineFeed(words[0]);
    if |words| > 1 {
      JoinEnds(words[1..]);
      var s, rest := Join(words, ' '), Join(words[1..], ' ');
      assert s == words[0] + [' '] + rest;
      assert s[|s| - 1] == rest[|rest| - 1];
    }
  }

  // ---- Trimming and lines ----

  function TrimStart(s: string): string {
    if s != "" && Whitespace(s[0]) then TrimStart(s[1..]) else s
  }

  function TrimEnd(s: string): string {
    if s != "" && Whitespace(s[|s| - 1]) then TrimEnd(s[..|s| - 1]) else s
  }

  function Trim(s: string): string {
    TrimEnd(TrimStart(s))
  }

  /** Position of the first `c`, or the length when there is none. */
  function IndexOf(s: string, c: char): (i: nat)
    ensures i <= |s|
    ensures c !in s[..i]
    ensures i < |s| ==> s[i] == c
  {
    if s == "" || s[0] == c then 0
    else
      var i := 1 + IndexOf(s[1..], c);
      assert s[..i] == [s[0]] + s[1..][..i - 1];
      i
  }

  function StripCr(line: string): string {
    if line != "" && line[|line| - 1] == '\r' then line[..|line| - 1] else line
  }

  /** Lines end at a line feed, with a carriage return before it dropped; nothing follows a final line feed. */
  function Lines(text: string): seq<string>
    decreases |text|
  {
    if text == "" then []
    else
      var i := IndexOf(text, '\n');
      if i == |text| then [text] else [StripCr(text[..i])] + Lines(text[i + 1..])
  }

  lemma LinesStep(line: string, rest: string)
    requires '\n' !in line && (line == "" || line[|line| - 1] != '\r')
    ensures Lines(line + "\n" + rest) == [line] + Lines(rest)
  {
    var text := line + "\n" + rest;
    var i := IndexOf(text, '\n');
    assert text[|line|] == '\n';
    assert forall k :: 0 <= k < |line| ==> text[k] == line[k];
    assert i >= |line|;
    assert forall k :: 0 <= k < i ==> text[k] == text[..i][k];
    assert i == |line|;
    assert text[..i] == line && text[i + 1..] == rest;
  }
}
