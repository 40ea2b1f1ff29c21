/** Text form of an Ethernet address: printing, parsing, and that they undo each other. */
module MacText {
  import opened Base
  import opened Text

  function HexByte(b: byte): (s: string)
    ensures |s| == 2
    ensures Token(s) && ':' !in s
    ensures s[0] != '#'
  {
    [Digit(b / 16), Digit(b % 16)]
  }

  function HexBytes(bytes: seq<byte>): (parts: seq<string>)
    ensures |parts| == |bytes|
    ensures forall i :: 0 <= i < |parts| ==> parts[i] == HexByte(bytes[i])
  {
    if bytes == [] then [] else [HexByte(bytes[0])] + HexBytes(bytes[1..])
  }

  /** `aa:bb:cc:dd:ee:ff`, always lower case and two digits an octet. */
  function Display(m: Mac): string {
    Join(HexBytes(m), ':')
  }

  function ParseOctet(part: string): (r: Option<byte>) {
    var n := ParseUnsigned(part, 16, 255);
    if n.Some? then Some(n.value) else None
  }

  function ParseOctets(parts: seq<string>): (r: Option<seq<byte>>)
    ensures r.Some? ==> |r.value| == |parts|
  {
    if parts == [] then Some([])
    else
      var head := ParseOctet(parts[0]);
      var tail := ParseOctets(parts[1..]);
      if head.Some? && tail.Some? then Some([head.value] + tail.value) else None
  }

  /** Exactly six octets between colons. */
  function ParseMac(s: string): (r: Option<Mac>) {
    var parts := SplitOn(s, ':');
    var octets := ParseOctets(parts);
    if |parts| == 6 && octets.Some? then Some(octets.value) else None
  }

  lemma {:induction false} ParseOctetsAppend(parts: seq<string>, part: string)
    ensures ParseOctets(parts + [part]) ==
            if ParseOctets(parts).Some? && ParseOctet(part).Some?
            then Some(ParseOctets(parts).value + [ParseOctet(part).value])
            else None
  {
    if parts == [] {
      assert parts + [part] == [part] && [part][1..] == [];
      if ParseOctet(part).Some? {
        var last: seq<byte> := [ParseOctet(part).value];
        assert last + [] == [] + last;
      }
    } else {
      ParseOctetsAppend(parts[1..], part);
      assert (parts + [part])[0] == parts[0];
      assert (parts + [part])[1..] == parts[1..] + [part];
      if ParseOctets(parts).Some? && ParseOctet(part).Some? {
        var head, tail, last := ParseOctet(parts[0]).value, ParseOctets(parts[1..]).value, ParseOctet(part).value;
        assert [head] + (tail + [last]) == [head] + tail + [last];
      }
    }
  }

  lemma {:induction false} ParseOctetsPrefix(parts: seq<string>, n: nat)
    requires n <= |parts| && ParseOctets(parts[..n]).None?
    ensures ParseOctets(parts).None?
    decreases |parts| - n
  {
    if n < |parts| {
      ParseOctetsAppend(parts[..n], parts[n]);
      assert parts[..n + 1] == parts[..n] + [parts[n]];
      ParseOctetsPrefix(parts, n + 1);
    } else {
      assert parts[..n] == parts;
    }
  }

  /** The parsing loop of the source: octets are filled in order, a seventh piece or a bad octet is an error. */
  method FromStr(s: string) returns (r: Option<Mac>)
    ensures r == ParseMac(s)
  {
    var octets: array<byte> := new byte[6](_ => 0);
    var count := 0;
    var parts := SplitOn(s, ':');
    for k := 0 to |parts|
      invariant count == k <= 6
      invariant ParseOctets(parts[..k]) == Some(octets[..k])
    {
      if count == 6 {
        return None;
      }
      var o := ParseOctet(parts[k]);
      ParseOctetsAppend(parts[..k], parts[k]);
      assert parts[..k + 1] == parts[..k] + [parts[k]];
      if o.None? {
        ParseOctetsPrefix(parts, k + 1);
        return None;
      }
      octets[count] := o.value;
      count := count + 1;
      assert octets[..k + 1] == octets[..k] + [o.value];
    }
    assert parts[..|parts|] == parts;
    if count != 6 {
      return None;
    }
    r := Some(octets[..]);
    assert octets[..] == octets[..6];
  }

  /** A byte slice becomes an address exactly when it has six bytes. */
  function FromBytes(bytes: seq<byte>): Option<Mac> {
    if |bytes| != 6 then None else Some(bytes)
  }

  lemma HexByteParses(b: byte)
    ensures ParseOctet(HexByte(b)) == Some(b)
  {
    var s := HexByte(b);
    assert DigitValue(s[0], 16) == Some((b / 16) as nat);
    assert DigitValue(s[1], 16) == Some((b % 16) as nat);
    assert s[1..][1..] == "";
    assert ParseDigits(s, 16, 0) == ParseDigits(s[1..], 16, b / 16) == Some(b / 16 * 16 + b % 16);
  }

  lemma {:induction false} HexBytesParse(bytes: seq<byte>)
    ensures ParseOctets(HexBytes(bytes)) == Some(bytes)
  {
    if bytes != [] {
      HexByteParses(bytes[0]);
      HexBytesParse(bytes[1..]);
      var parts := HexBytes(bytes);
      assert parts[1..] == HexBytes(bytes[1..]);
      assert bytes == [bytes[0]] + bytes[1..];
    }
  }

  /** Printing and parsing undo each other. */
  lemma DisplayParses(m: Mac)
    ensures ParseMac(Display(m)) == Some(m)
  {
    SplitJoin(HexBytes(m), ':');
    HexBytesParse(m);
  }

  /** Two addresses with the same text are the same address. */
  lemma DisplayInjective(a: Mac, b: Mac)
    requires Display(a) == Display(b)
    ensures a == b
  {
    DisplayParses(a);
    DisplayParses(b);
  }

  // ---- Which characters ----

  const LOWER_HEX: string := "0123456789abcdef"

  lemma DigitIsLower(n: int)
    requires 0 <= n < 16
    ensures Digit(n) == LOWER_HEX[n]
  {
  }

  /** Two-character pieces with a separator between them. */
  predicate Paired(s: string, parts: seq<string>, sep: char) {
    && (forall k :: 0 <= k < |parts| ==> |parts[k]| == 2)
    && |s| == 3 * |parts| - 1
    && (forall k :: 0 <= k < |parts| ==> s[3 * k..3 * k + 2] == parts[k])
    && (forall k :: 0 < k < |parts| ==> s[3 * k - 1] == sep)
  }

  lemma PairedStep(first: string, rest: string, parts: seq<string>, sep: char)
    requires |first| == 2 && parts != [] && Paired(rest, parts, sep)
    ensures Paired(first + [sep] + rest, [first] + parts, sep)
  {
    var s, all := first + [sep] + rest, [first] + parts;
    assert s[3..] == rest;
    forall k | 0 < k < |all|
      ensures s[3 * k..3 * k + 2] == all[k] && s[3 * k - 1] == sep
    {
      var j := k - 1;
      assert all[k] == parts[j];
      assert s[3 * k..3 * k + 2] == rest[3 * j..3 * j + 2];
      assert j > 0 ==> s[3 * k - 1] == rest[3 * j - 1];
    }
  }

  lemma {:induction false} JoinPaired(parts: seq<string>, sep: char)
    requires parts != [] && forall k :: 0 <= k < |parts| ==> |parts[k]| == 2
    ensures Paired(Join(parts, sep), parts, sep)
  {
    if |parts| > 1 {
      JoinPaired(parts[1..], sep);
      PairedStep(parts[0], Join(parts[1..], sep), parts[1..], sep);
      assert [parts[0]] + parts[1..] == parts;
    }
  }

  /** A printed address is 17 characters: for each byte two lower-case hex digits, with colons between. */
  lemma DisplaySpells(m: Mac)
    ensures var s := Display(m);
            && |s| == 17
            && (forall k :: 0 <= k < 6 ==> s[3 * k..3 * k + 2] == [LOWER_HEX[m[k] / 16], LOWER_HEX[m[k] % 16]])
            && (forall k :: 0 < k < 6 ==> s[3 * k - 1] == ':')
  {
    JoinPaired(HexBytes(m), ':');
    forall k | 0 <= k < 6
      ensures Display(m)[3 * k..3 * k + 2] == [LOWER_HEX[m[k] / 16], LOWER_HEX[m[k] % 16]]
    {
      DigitIsLower(m[k] / 16);
      DigitIsLower(m[k] % 16);
      assert HexBytes(m)[k] == HexByte(m[k]);
    }
  }

  // ---- Upper case ----

  function UpperChar(c: char): char {
    if 'a' <= c <= 'f' then 'A' + (c - 'a') else c
  }

  function Upper(s: string): string {
    if s == "" then "" else [UpperChar(s[0])] + Upper(s[1..])
  }

  function UpperAll(parts: seq<string>): seq<string> {
    if parts == [] then [] else [Upper(parts[0])] + UpperAll(parts[1..])
  }

  lemma {:induction false} DigitsUpper(s: string, acc: nat)
    ensures ParseDigits(Upper(s), 16, acc) == ParseDigits(s, 16, acc)
  {
    if s != "" {
      var d := DigitValue(s[0], 16);
      assert DigitValue(UpperChar(s[0]), 16) == d;
      assert Upper(s)[1..] == Upper(s[1..]);
      if d.Some? {
        DigitsUpper(s[1..], acc * 16 + d.value);
      }
    }
  }

  lemma OctetUpper(s: string)
    ensures ParseOctet(Upper(s)) == ParseOctet(s)
  {
    if s != "" {
      assert Upper(s)[1..] == Upper(s[1..]);
      DigitsUpper(s, 0);
      DigitsUpper(s[1..], 0);
      assert |Upper(s[1..])| > 0 <==> |s| > 1;
    }
  }

  lemma {:induction false} SplitUpper(s: string)
    ensures SplitOn(Upper(s), ':') == UpperAll(SplitOn(s, ':'))
  {
    if s != "" {
      assert Upper(s)[1..] == Upper(s[1..]);
      SplitUpper(s[1..]);
      var parts := SplitOn(s[1..], ':');
      assert UpperAll(parts)[0] == Upper(parts[0]) && UpperAll(parts)[1..] == UpperAll(parts[1..]);
      if s[0] == ':' {
        assert SplitOn(s, ':')[1..] == parts;
      } else {
        var first := [s[0]] + parts[0];
        assert first[1..] == parts[0] && SplitOn(s, ':')[1..] == parts[1..];
      }
    }
  }

  lemma {:induction false} OctetsUpper(parts: seq<string>)
    ensures |UpperAll(parts)| == |parts| && ParseOctets(UpperAll(parts)) == ParseOctets(parts)
  {
    if parts != [] {
      OctetUpper(parts[0]);
      OctetsUpper(parts[1..]);
      assert UpperAll(parts)[1..] == UpperAll(parts[1..]);
    }
  }

  /** The case of the digits does not matter to the parser. */
  lemma CaseDoesNotMatter(s: string)
    ensures ParseMac(Upper(s)) == ParseMac(s)
  {
    SplitUpper(s);
    OctetsUpper(SplitOn(s, ':'));
  }
}
