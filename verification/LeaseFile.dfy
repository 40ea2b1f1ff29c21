/** The lease file: one line a lease, printed sorted by address and read back line by line. */
module LeaseFile {
  import opened Base
  import opened Text
  import opened Ip
  import opened MacText

  datatype Lease = Lease(mac: Mac, ip: u32, hostname: Option<string>, expiresAt: u64)

  type LeaseMap = map<Mac, Lease>

  // ---- Lines ----

  function HostnameStr(l: Lease): string {
    if l.hostname.Some? then l.hostname.value else "-"
  }

  function Fields(l: Lease): seq<string> {
    [Display(l.mac), DisplayIp(l.ip), HostnameStr(l), Decimal(l.expiresAt)]
  }

  function LeaseLine(l: Lease): string {
    Join(Fields(l), ' ')
  }

  /** The first four fields of a line; anything after them is ignored, any malformed field rejects the line. */
  function ParseLine(line: string): Option<Lease> {
    var fields := SplitWhitespace(line);
    if |fields| < 4 then None
    else
      var mac := ParseMac(fields[0]);
      var ip := ParseIp(fields[1]);
      var expiresAt := ParseUnsigned(fields[3], 10, TWO_64 - 1);
      if mac.None? || ip.None? || expiresAt.None? then None
      else
        var hostname := if fields[2] == "-" then None else Some(fields[2]);
        Some(Lease(mac.value, ip.value, hostname, expiresAt.value))
  }

  predicate Skipped(line: string) {
    line == "" || line[0] == '#'
  }

  /** One line's effect on the map being loaded. */
  function LoadLine(raw: string, acc: LeaseMap): LeaseMap {
    var line := Trim(raw);
    if Skipped(line) then acc
    else
      var l := ParseLine(line);
      if l.None? then acc else acc[l.value.mac := l.value]
  }

  function LoadLines(lines: seq<string>, acc: LeaseMap): LeaseMap {
    if lines == [] then acc else LoadLines(lines[1..], LoadLine(lines[0], acc))
  }

  /** What a lease file denotes. A missing file is the empty text. */
  function LoadText(text: string): LeaseMap {
    LoadLines(Lines(text), map[])
  }

  // ---- Orders ----

  /** `order` lists every lease of the map once: what iterating the hash map may yield. */
  ghost predicate Enumerates(order: seq<Lease>, m: LeaseMap) {
    && (forall i :: 0 <= i < |order| ==> order[i].mac in m && m[order[i].mac] == order[i])
    && (forall k :: k in m ==> m[k] in order)
    && DistinctMacs(order)
  }

  predicate DistinctMacs(order: seq<Lease>) {
    forall i, j :: 0 <= i < j < |order| ==> order[i].mac != order[j].mac
  }

  function InsertByIp(l: Lease, sorted: seq<Lease>): seq<Lease> {
    if sorted == [] || l.ip <= sorted[0].ip then [l] + sorted else [sorted[0]] + InsertByIp(l, sorted[1..])
  }

  /** Stable sort by address. */
  function SortByIp(order: seq<Lease>): seq<Lease> {
    if order == [] then [] else InsertByIp(order[0], SortByIp(order[1..]))
  }

  predicate SortedByIp(s: seq<Lease>) {
    forall i, j :: 0 <= i < j < |s| ==> s[i].ip <= s[j].ip
  }

  function TextOf(order: seq<Lease>): string {
    if order == [] then "" else LeaseLine(order[0]) + "\n" + TextOf(order[1..])
  }

  // ---- What the file can hold ----

  /** Every lease sits under its own MAC, and every hostname is one whitespace-free word. */
  predicate Storable(m: LeaseMap) {
    forall k :: k in m ==> m[k].mac == k && (m[k].hostname.Some? ==> Token(m[k].hostname.value))
  }

  /** The one thing the file format loses: a hostname that is a single dash reads back as no hostname. */
  function Normal(l: Lease): Lease {
    if l.hostname == Some("-") then l.(hostname := None) else l
  }

  function NormalMap(m: LeaseMap): LeaseMap {
    map k | k in m :: Normal(m[k])
  }

  /** No two MACs share an address. */
  predicate IpInjective(m: LeaseMap) {
    forall a, b :: a in m && b in m && a != b ==> m[a].ip != m[b].ip
  }

  // ---- Line round trip ----

  lemma DisplayIsToken(m: Mac)
    ensures Token(Display(m)) && !Skipped(Display(m))
  {
    JoinIsToken(HexBytes(m), ':');
  }

  lemma FieldsAreTokens(l: Lease)
    requires l.hostname.Some? ==> Token(l.hostname.value)
    ensures forall i :: 0 <= i < 4 ==> Token(Fields(l)[i])
  {
    DisplayIsToken(l.mac);
    DisplayIpIsToken(l.ip);
  }

  lemma LineParses(l: Lease)
    requires l.hostname.Some? ==> Token(l.hostname.value)
    ensures ParseLine(LeaseLine(l)) == Some(Normal(l))
  {
    FieldsAreTokens(l);
    SplitWords(Fields(l));
    assert Fields(l)[..4] == Fields(l);
    WordsParse(LeaseLine(l), Fields(l), l);
  }

  /** A line is MAC, address, hostname or a dash, and expiry, with single spaces between. */
  lemma LineText(l: Lease)
    ensures LeaseLine(l) == Display(l.mac) + " " + DisplayIp(l.ip) + " "
                            + (if l.hostname.Some? then l.hostname.value else "-") + " " + Decimal(l.expiresAt)
  {
    var a, b, c, d := Display(l.mac), DisplayIp(l.ip), HostnameStr(l), Decimal(l.expiresAt);
    assert [a, b, c, d][1..] == [b, c, d] && [b, c, d][1..] == [c, d] && [c, d][1..] == [d];
    assert Join([c, d], ' ') == c + [' '] + Join([d], ' ') && Join([d], ' ') == d;
    assert Join([b, c, d], ' ') == b + [' '] + Join([c, d], ' ');
    assert LeaseLine(l) == a + [' '] + Join([b, c, d], ' ');
  }

  /** Words after the fourth are ignored. */
  lemma ExtraWordsIgnored(l: Lease, more: seq<string>)
    requires l.hostname.Some? ==> Token(l.hostname.value)
    requires forall i :: 0 <= i < |more| ==> Token(more[i])
    ensures ParseLine(Join(Fields(l) + more, ' ')) == Some(Normal(l))
  {
    var words := Fields(l) + more;
    FieldsAreTokens(l);
    SplitWords(words);
    assert words[..4] == Fields(l);
    WordsParse(Join(words, ' '), words, l);
  }

  lemma WordsParse(line: string, words: seq<string>, l: Lease)
    requires SplitWhitespace(line) == words && |words| >= 4 && words[..4] == Fields(l)
    ensures ParseLine(line) == Some(Normal(l))
  {
    var first := words[..4];
    assert words[0] == first[0] && words[1] == first[1] && words[2] == first[2] && words[3] == first[3];
    DisplayParses(l.mac);
    DisplayIpParses(l.ip);
    ParseDecimal(l.expiresAt, TWO_64 - 1);
    FieldsParse(line, words, l);
  }

  lemma FieldsParse(line: string, words: seq<string>, l: Lease)
    requires SplitWhitespace(line) == words && |words| >= 4
    requires ParseMac(words[0]) == Some(l.mac) && ParseIp(words[1]) == Some(l.ip) && words[2] == HostnameStr(l)
    requires ParseUnsigned(words[3], 10, TWO_64 - 1) == Some(l.expiresAt)
    ensures ParseLine(line) == Some(Normal(l))
  {
  }

  /** Fewer than four words are no lease. */
  lemma ShortLineIsNoLease(words: seq<string>)
    requires |words| < 4 && forall i :: 0 <= i < |words| ==> Token(words[i])
    ensures ParseLine(Join(words, ' ')).None?
  {
    SplitWords(words);
  }

  /**
   Lines count one by one, a later one for the same MAC replacing an earlier: blank lines, comments and malformed lines
   change nothing, any other sets its client's lease.
   */
  lemma {:induction false} LastLineCounts(lines: seq<string>, raw: string, acc: LeaseMap)
    ensures var before, after := LoadLines(lines, acc), LoadLines(lines + [raw], acc);
            var line := Trim(raw);
            after == if line == "" || line[0] == '#' || ParseLine(line).None? then before
                     else before[ParseLine(line).value.mac := ParseLine(line).value]
    decreases |lines|
  {
    if lines == [] {
      assert lines + [raw] == [raw] && [raw][1..] == [];
    } else {
      assert (lines + [raw])[0] == lines[0] && (lines + [raw])[1..] == lines[1..] + [raw];
      LastLineCounts(lines[1..], raw, LoadLine(lines[0], acc));
    }
  }

  lemma TrimKeeps(s: string)
    requires s != "" && !Whitespace(s[0]) && !Whitespace(s[|s| - 1])
    ensures Trim(s) == s
  {
  }

  lemma LineShape(l: Lease)
    requires l.hostname.Some? ==> Token(l.hostname.value)
    ensures var s := LeaseLine(l);
            '\n' !in s && s != "" && s[|s| - 1] != '\r' && Trim(s) == s && !Skipped(s)
  {
    DisplayIsToken(l.mac);
    FieldsAreTokens(l);
    JoinEnds(Fields(l));
    TrimKeeps(LeaseLine(l));
  }

  function LinesOf(order: seq<Lease>): seq<string> {
    if order == [] then [] else [LeaseLine(order[0])] + LinesOf(order[1..])
  }

  predicate NamesAreTokens(order: seq<Lease>) {
    forall i :: 0 <= i < |order| && order[i].hostname.Some? ==> Token(order[i].hostname.value)
  }

  lemma {:induction false} LinesOfText(order: seq<Lease>)
    requires NamesAreTokens(order)
    ensures Lines(TextOf(order)) == LinesOf(order)
  {
    if order != [] {
      LineShape(order[0]);
      LinesOfText(order[1..]);
      LinesStep(LeaseLine(order[0]), TextOf(order[1..]));
    }
  }

  // ---- File round trip ----

  function Collect(order: seq<Lease>, acc: LeaseMap): LeaseMap {
    if order == [] then acc else Collect(order[1..], acc[order[0].mac := Normal(order[0])])
  }

  lemma LoadLineOf(l: Lease, acc: LeaseMap)
    requires l.hostname.Some? ==> Token(l.hostname.value)
    ensures LoadLine(LeaseLine(l), acc) == acc[l.mac := Normal(l)]
  {
    LineShape(l);
    LineParses(l);
  }

  lemma {:induction false} LoadLinesCollects(order: seq<Lease>, acc: LeaseMap)
    requires NamesAreTokens(order)
    ensures LoadLines(LinesOf(order), acc) == Collect(order, acc)
  {
    if order != [] {
      var l := order[0];
      var lines := LinesOf(order);
      assert lines[0] == LeaseLine(l) && lines[1..] == LinesOf(order[1..]);
      LoadLineOf(l, acc);
      LoadLinesCollects(order[1..], acc[l.mac := Normal(l)]);
    }
  }

  function MacsOf(order: seq<Lease>): set<Mac> {
    set l | l in order :: l.mac
  }

  lemma {:induction false} CollectKeys(order: seq<Lease>, acc: LeaseMap)
    ensures Collect(order, acc).Keys == acc.Keys + MacsOf(order)
  {
    if order != [] {
      CollectKeys(order[1..], acc[order[0].mac := Normal(order[0])]);
      assert MacsOf(order) == {order[0].mac} + MacsOf(order[1..]) by {
        assert order == [order[0]] + order[1..];
      }
    }
  }

  lemma {:induction false} CollectKeeps(order: seq<Lease>, acc: LeaseMap, k: Mac)
    requires k in acc && forall i :: 0 <= i < |order| ==> order[i].mac != k
    ensures k in Collect(order, acc) && Collect(order, acc)[k] == acc[k]
  {
    if order != [] {
      CollectKeeps(order[1..], acc[order[0].mac := Normal(order[0])], k);
    }
  }

  lemma {:induction false} CollectFinds(order: seq<Lease>, acc: LeaseMap, i: nat)
    requires i < |order| && DistinctMacs(order)
    ensures order[i].mac in Collect(order, acc) && Collect(order, acc)[order[i].mac] == Normal(order[i])
  {
    var next := acc[order[0].mac := Normal(order[0])];
    if i == 0 {
      CollectKeeps(order[1..], next, order[0].mac);
    } else {
      CollectFinds(order[1..], next, i - 1);
    }
  }

  /** Loading what was saved, in whatever order the hash map was walked, gives the map back up to dash hostnames. */
  lemma LoadSaved(order: seq<Lease>, m: LeaseMap)
    requires Enumerates(order, m) && Storable(m)
    ensures LoadText(TextOf(order)) == NormalMap(m)
  {
    LinesOfText(order);
    LoadLinesCollects(order, map[]);
    CollectAll(order, m);
  }

  lemma CollectAll(order: seq<Lease>, m: LeaseMap)
    requires Enumerates(order, m) && Storable(m)
    ensures Collect(order, map[]) == NormalMap(m)
  {
    var r := Collect(order, map[]);
    CollectKeys(order, map[]);
    forall k | k in m
      ensures k in r && r[k] == Normal(m[k])
    {
      var i :| 0 <= i < |order| && order[i] == m[k];
      CollectFinds(order, map[], i);
    }
    assert forall k :: k in r ==> k in m;
  }

  /** Nothing at all is lost exactly when no client is called `-`. */
  lemma LoadSavedExactly(order: seq<Lease>, m: LeaseMap)
    requires Enumerates(order, m) && Storable(m)
    ensures LoadText(TextOf(order)) == m <==> forall k :: k in m ==> m[k].hostname != Some("-")
  {
    LoadSaved(order, m);
    if LoadText(TextOf(order)) == m {
      forall k | k in m
        ensures m[k].hostname != Some("-")
      {
        assert Normal(m[k]) == m[k];
      }
    } else {
      var k :| k in m && NormalMap(m)[k] != m[k];
    }
  }

  /** Whatever text is loaded, the result can be saved again without loss. */
  lemma LoadedIsStorable(text: string)
    ensures Storable(LoadText(text))
    ensures NormalMap(LoadText(text)) == LoadText(text)
  {
    LoadedLinesStorable(Lines(text), map[]);
  }

  predicate Normalized(m: LeaseMap) {
    forall k :: k in m ==> m[k].hostname != Some("-")
  }

  lemma {:induction false} LoadedLinesStorable(lines: seq<string>, acc: LeaseMap)
    requires Storable(acc) && Normalized(acc)
    ensures Storable(LoadLines(lines, acc)) && Normalized(LoadLines(lines, acc))
  {
    if lines != [] {
      LoadedLinesStorable(lines[1..], LoadLine(lines[0], acc));
    }
  }

  // ---- Sorting ----

  lemma {:induction false} InsertKeepsAll(l: Lease, s: seq<Lease>)
    ensures multiset(InsertByIp(l, s)) == multiset{l} + multiset(s)
  {
    if s == [] || l.ip <= s[0].ip {
      assert multiset([l] + s) == multiset{l} + multiset(s);
    } else {
      InsertKeepsAll(l, s[1..]);
      assert s == [s[0]] + s[1..];
    }
  }

  lemma {:induction false} InsertKeepsOrder(l: Lease, s: seq<Lease>)
    requires SortedByIp(s)
    ensures SortedByIp(InsertByIp(l, s))
  {
    if s != [] && l.ip > s[0].ip {
      InsertKeepsOrder(l, s[1..]);
      InsertKeepsAll(l, s[1..]);
      var r := InsertByIp(l, s[1..]);
      forall x | x in r
        ensures s[0].ip <= x.ip
      {
        assert x in multiset(r);
        assert x == l || x in s[1..];
      }
    }
  }

  lemma {:induction false} SortKeeps(order: seq<Lease>)
    ensures SortedByIp(SortByIp(order))
    ensures multiset(SortByIp(order)) == multiset(order)
  {
    if order != [] {
      SortKeeps(order[1..]);
      InsertKeepsAll(order[0], SortByIp(order[1..]));
      InsertKeepsOrder(order[0], SortByIp(order[1..]));
      assert order == [order[0]] + order[1..];
    }
  }

  lemma {:induction false} CountAtMostOne(order: seq<Lease>, l: Lease)
    requires DistinctMacs(order)
    ensures multiset(order)[l] <= 1
  {
    if order != [] {
      CountAtMostOne(order[1..], l);
      assert order == [order[0]] + order[1..];
      if order[0] == l {
        assert l !in order[1..];
      }
    }
  }

  lemma SortEnumerates(order: seq<Lease>, m: LeaseMap)
    requires Enumerates(order, m) && Storable(m)
    ensures Enumerates(SortByIp(order), m) && SortedByIp(SortByIp(order))
  {
    var s := SortByIp(order);
    SortKeeps(order);
    forall i | 0 <= i < |s|
      ensures s[i] in order
    {
      assert s[i] in multiset(order);
    }
    forall k | k in m
      ensures m[k] in s
    {
      assert m[k] in multiset(s);
    }
    forall i, j | 0 <= i < j < |s|
      ensures s[i].mac != s[j].mac
    {
      if s[i].mac == s[j].mac {
        assert s[i] == s[j];
        TwiceInMultiset(s, i, j);
        CountAtMostOne(order, s[i]);
        assert false;
      }
    }
  }

  lemma TwiceInMultiset(s: seq<Lease>, i: nat, j: nat)
    requires i < j < |s| && s[i] == s[j]
    ensures multiset(s)[s[i]] >= 2
  {
    assert s == s[..i] + [s[i]] + s[i + 1..j] + [s[j]] + s[j + 1..];
  }

  /** Two strictly ascending lists with the same members are the same list. */
  lemma {:induction false} AscendingUnique(a: seq<Lease>, b: seq<Lease>)
    requires forall i, j :: 0 <= i < j < |a| ==> a[i].ip < a[j].ip
    requires forall i, j :: 0 <= i < j < |b| ==> b[i].ip < b[j].ip
    requires forall l :: l in a <==> l in b
    ensures a == b
  {
    assert a != [] ==> a[0] in b;
    assert b != [] ==> b[0] in a;
    if a != [] {
      assert a[0] in b && b[0] in a;
      assert a[0] == b[0];
      assert forall l :: l in a <==> l == a[0] || l in a[1..];
      assert forall l :: l in b <==> l == b[0] || l in b[1..];
      assert a[0] !in a[1..] && b[0] !in b[1..];
      AscendingUnique(a[1..], b[1..]);
      assert a == [a[0]] + a[1..] && b == [b[0]] + b[1..];
    }
  }

  lemma InjectiveSortIsStrict(order: seq<Lease>, m: LeaseMap)
    requires Enumerates(order, m) && Storable(m) && IpInjective(m) && SortedByIp(order)
    ensures forall i, j :: 0 <= i < j < |order| ==> order[i].ip < order[j].ip
  {
    forall i, j | 0 <= i < j < |order|
      ensures order[i].ip < order[j].ip
    {
      assert order[i].mac != order[j].mac;
    }
  }

  lemma SortedOrderIsUnique(a: seq<Lease>, b: seq<Lease>, m: LeaseMap)
    requires Enumerates(a, m) && Enumerates(b, m) && Storable(m) && IpInjective(m) && SortedByIp(a) && SortedByIp(b)
    ensures a == b
  {
    InjectiveSortIsStrict(a, m);
    InjectiveSortIsStrict(b, m);
    assert forall l :: l in a <==> l.mac in m && m[l.mac] == l;
    assert forall l :: l in b <==> l.mac in m && m[l.mac] == l;
    AscendingUnique(a, b);
  }

  /** The saved bytes do not depend on hash-map order as long as no two leases share an address. */
  lemma SaveIsCanonical(o1: seq<Lease>, o2: seq<Lease>, m: LeaseMap)
    requires Enumerates(o1, m) && Enumerates(o2, m) && Storable(m) && IpInjective(m)
    ensures TextOf(SortByIp(o1)) == TextOf(SortByIp(o2))
  {
    SortEnumerates(o1, m);
    SortEnumerates(o2, m);
    SortedOrderIsUnique(SortByIp(o1), SortByIp(o2), m);
  }

  lemma EnumeratesStep(order: seq<Lease>, met: LeaseMap, l: Lease)
    requires Enumerates(order, met) && l.mac !in met
    ensures Enumerates(order + [l], met[l.mac := l])
  {
    var next := met[l.mac := l];
    forall k | k in next
      ensures next[k] in order + [l]
    {
      assert k in met ==> met[k] in order;
    }
  }

  lemma {:induction false} OrderExists(m: LeaseMap) returns (order: seq<Lease>)
    requires Storable(m)
    ensures Enumerates(order, m)
    decreases |m|
  {
    order := [];
    if m != map[] {
      var k :| k in m;
      order := OrderExists(m - {k});
      EnumeratesStep(order, m - {k}, m[k]);
      order := order + [m[k]];
      assert (m - {k})[k := m[k]] == m;
    }
  }

  /** Two clients on one address keep their relative order through the sort, whatever else is sorted with them. */
  lemma {:induction false} InsertPair(a: Lease, b: Lease, s: seq<Lease>) returns (p: nat)
    requires a.ip == b.ip
    ensures p < |InsertByIp(a, InsertByIp(b, s))| && p < |InsertByIp(b, InsertByIp(a, s))|
    ensures InsertByIp(a, InsertByIp(b, s))[p] == a && InsertByIp(b, InsertByIp(a, s))[p] == b
  {
    if s == [] || a.ip <= s[0].ip {
      p := 0;
    } else {
      p := InsertPair(a, b, s[1..]);
      assert InsertByIp(a, InsertByIp(b, s)) == [s[0]] + InsertByIp(a, InsertByIp(b, s[1..]));
      assert InsertByIp(b, InsertByIp(a, s)) == [s[0]] + InsertByIp(b, InsertByIp(a, s[1..]));
      p := p + 1;
    }
  }

  lemma {:induction false} LinesOfAt(order: seq<Lease>, i: nat)
    requires i < |order|
    ensures |LinesOf(order)| == |order| && LinesOf(order)[i] == LeaseLine(order[i])
  {
    if i > 0 {
      LinesOfAt(order[1..], i - 1);
    } else if |order| > 1 {
      LinesOfAt(order[1..], 0);
    }
  }

  /** Lists of leases with the same text list the same MACs, place by place. */
  lemma SameTextSameMacs(x: seq<Lease>, y: seq<Lease>, i: nat)
    requires NamesAreTokens(x) && NamesAreTokens(y) && TextOf(x) == TextOf(y) && i < |x| && i < |y|
    ensures x[i].mac == y[i].mac
  {
    LinesOfText(x);
    LinesOfText(y);
    LinesOfAt(x, i);
    LinesOfAt(y, i);
    SameLineSameMac(x[i], y[i]);
  }

  lemma SameLineSameMac(k: Lease, l: Lease)
    requires k.hostname.Some? ==> Token(k.hostname.value)
    requires l.hostname.Some? ==> Token(l.hostname.value)
    requires LeaseLine(k) == LeaseLine(l)
    ensures k.mac == l.mac
  {
    LineParses(k);
    LineParses(l);
    assert Normal(k) == Normal(l);
  }

  lemma EnumeratedNames(order: seq<Lease>, m: LeaseMap)
    requires Enumerates(order, m) && Storable(m)
    ensures NamesAreTokens(order)
  {
  }

  lemma OneInFront(order: seq<Lease>, rest: seq<Lease>, m: LeaseMap, k: Mac)
    requires Storable(m) && k in m && Enumerates(rest, m - {k}) && order == [m[k]] + rest
    ensures Enumerates(order, m)
  {
    assert order[0] == m[k] && forall i :: 0 < i < |order| ==> order[i] == rest[i - 1];
    forall x | x in m
      ensures m[x] in order
    {
      assert x != k ==> x in m - {k} && (m - {k})[x] in rest;
    }
  }

  lemma PairInFront(rest: seq<Lease>, m: LeaseMap, a: Mac, b: Mac)
    requires Storable(m) && a in m && b in m && a != b && Enumerates(rest, m - {a, b})
    ensures Enumerates([m[a], m[b]] + rest, m)
  {
    var less: LeaseMap := m - {a};
    var order := [m[b]] + rest;
    assert less - {b} == m - {a, b};
    OneInFront(order, rest, less, b);
    FrontTwo(m[a], m[b], rest);
    OneInFront([m[a], m[b]] + rest, order, m, a);
  }

  lemma FrontTwo(x: Lease, y: Lease, rest: seq<Lease>)
    ensures [x, y] + rest == [x] + ([y] + rest)
  {
  }

  /** Two leases on one address are saved in the order the hash map yields them. */
  lemma SharedAddressShows(m: LeaseMap, a: Mac, b: Mac) returns (o1: seq<Lease>, o2: seq<Lease>)
    requires Storable(m) && a in m && b in m && a != b && m[a].ip == m[b].ip
    ensures Enumerates(o1, m) && Enumerates(o2, m) && TextOf(SortByIp(o1)) != TextOf(SortByIp(o2))
  {
    var rest := OrderExists(m - {a, b});
    assert m - {b, a} == m - {a, b};
    PairInFront(rest, m, a, b);
    PairInFront(rest, m, b, a);
    o1, o2 := [m[a], m[b]] + rest, [m[b], m[a]] + rest;
    SortPair(m[a], m[b], rest);
    SortPair(m[b], m[a], rest);
    var p := InsertPair(m[a], m[b], SortByIp(rest));
    SortEnumerates(o1, m);
    SortEnumerates(o2, m);
    EnumeratedNames(SortByIp(o1), m);
    EnumeratedNames(SortByIp(o2), m);
    if TextOf(SortByIp(o1)) == TextOf(SortByIp(o2)) {
      SameTextSameMacs(SortByIp(o1), SortByIp(o2), p);
      assert false;
    }
  }

  lemma SortPair(a: Lease, b: Lease, rest: seq<Lease>)
    ensures SortByIp([a, b] + rest) == InsertByIp(a, InsertByIp(b, SortByIp(rest)))
  {
    assert ([a, b] + rest)[1..] == [b] + rest && ([b] + rest)[1..] == rest;
  }

  /** And that is exactly when the saved bytes depend on the hash map's order. */
  lemma SaveIsCanonicalExactly(m: LeaseMap)
    requires Storable(m)
    ensures IpInjective(m) <==>
            forall o1, o2 :: Enumerates(o1, m) && Enumerates(o2, m) ==> TextOf(SortByIp(o1)) == TextOf(SortByIp(o2))
  {
    if IpInjective(m) {
      forall o1, o2 | Enumerates(o1, m) && Enumerates(o2, m)
        ensures TextOf(SortByIp(o1)) == TextOf(SortByIp(o2))
      {
        SaveIsCanonical(o1, o2, m);
      }
    } else {
      var a, b :| a in m && b in m && a != b && m[a].ip == m[b].ip;
      var o1, o2 := SharedAddressShows(m, a, b);
    }
  }
}
