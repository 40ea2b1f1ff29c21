/** DHCP options: the defensive TLV parser and the reply writer (section 2 of RFC 2132). */
module DhcpOptions {
  import opened Base
  import opened Message

  const OPT_PAD: byte := 0
  const OPT_SUBNET_MASK: byte := 1
  const OPT_ROUTER: byte := 3
  const OPT_DNS: byte := 6
  const OPT_HOSTNAME: byte := 12
  const OPT_REQUESTED_IP: byte := 50
  const OPT_LEASE_TIME: byte := 51
  const OPT_MSG_TYPE: byte := 53
  const OPT_SERVER_ID: byte := 54
  const OPT_PARAM_REQUEST_LIST: byte := 55
  const OPT_END: byte := 255

  datatype Item = Item(code: byte, data: seq<byte>)

  /** An item that has a TLV form: it is neither padding nor the end mark, and its length fits one byte. */
  predicate Encodable(item: Item) {
    item.code != OPT_PAD && item.code != OPT_END && |item.data| <= 255
  }

  predicate AllEncodable(items: seq<Item>) {
    forall i :: 0 <= i < |items| ==> Encodable(items[i])
  }

  // ---- Meaning of an options area ----

  /** The items an options area denotes, front to back. */
  function ParseItems(buf: seq<byte>): seq<Item>
    decreases |buf|
  {
    if |buf| == 0 || buf[0] == OPT_END then []
    else if buf[0] == OPT_PAD then ParseItems(buf[1..])
    else if |buf| < 2 || 2 + buf[1] > |buf| then []
    else [Item(buf[0], buf[2..2 + buf[1]])] + ParseItems(buf[2 + buf[1]..])
  }

  function EncodeItem(item: Item): seq<byte>
    requires |item.data| <= 255
  {
    [item.code, |item.data|] + item.data
  }

  function Encode(items: seq<Item>): seq<byte>
    requires forall i :: 0 <= i < |items| ==> |items[i].data| <= 255
  {
    if items == [] then [] else EncodeItem(items[0]) + Encode(items[1..])
  }

  lemma {:induction false} EncodeAppend(items: seq<Item>, item: Item)
    requires forall i :: 0 <= i < |items| ==> |items[i].data| <= 255
    requires |item.data| <= 255
    ensures Encode(items + [item]) == Encode(items) + EncodeItem(item)
  {
    if items == [] {
      assert Encode([item]) == EncodeItem(item) + Encode([]);
    } else {
      EncodeAppend(items[1..], item);
      assert (items + [item])[1..] == items[1..] + [item];
      assert Encode(items + [item]) == EncodeItem(items[0]) + Encode(items[1..] + [item]);
    }
  }

  // ---- Properties ----

  /** What the writer wrote is what the parser reads, whatever follows the end mark. */
  lemma {:induction false} ParseEncode(items: seq<Item>, rest: seq<byte>)
    requires AllEncodable(items)
    ensures ParseItems(Encode(items) + [OPT_END] + rest) == items
  {
    if items != [] {
      var tail := Encode(items[1..]) + [OPT_END] + rest;
      ParseEncode(items[1..], rest);
      ParsePushed(items[0], tail);
      assert Encode(items) + [OPT_END] + rest == EncodeItem(items[0]) + tail;
    }
  }

  lemma ParsePushed(item: Item, tail: seq<byte>)
    requires Encodable(item)
    ensures ParseItems(EncodeItem(item) + tail) == [item] + ParseItems(tail)
  {
    var buf := EncodeItem(item) + tail;
    var end := 2 + |item.data|;
    assert buf[0] == item.code && buf[1] == |item.data| && buf[2..end] == item.data && buf[end..] == tail;
    FirstItem(buf, end);
  }

  /** Every item the parser returns has a TLV form. */
  lemma {:induction false} ParsedIsEncodable(buf: seq<byte>)
    ensures AllEncodable(ParseItems(buf))
    decreases |buf|
  {
    if |buf| == 0 || buf[0] == OPT_END {
    } else if buf[0] == OPT_PAD {
      ParsedIsEncodable(buf[1..]);
    } else if |buf| < 2 || 2 + buf[1] > |buf| {
    } else {
      ParsedIsEncodable(buf[2 + buf[1]..]);
    }
  }

  /** A written list survives parsing exactly when every item has a TLV form. */
  lemma RoundTripExactly(items: seq<Item>, rest: seq<byte>)
    requires forall i :: 0 <= i < |items| ==> |items[i].data| <= 255
    ensures ParseItems(Encode(items) + [255] + rest) == items <==>
            forall i :: 0 <= i < |items| ==> items[i].code != 0 && items[i].code != 255
  {
    ParsedIsEncodable(Encode(items) + [OPT_END] + rest);
    if AllEncodable(items) {
      ParseEncode(items, rest);
    }
  }

  /** Re-writing the items of arbitrary bytes and parsing again changes nothing. */
  lemma RewriteIsIdentity(buf: seq<byte>)
    ensures AllEncodable(ParseItems(buf))
    ensures ParseItems(Encode(ParseItems(buf)) + [OPT_END]) == ParseItems(buf)
  {
    ParsedIsEncodable(buf);
    ParseEncode(ParseItems(buf), []);
    assert Encode(ParseItems(buf)) + [OPT_END] + [] == Encode(ParseItems(buf)) + [OPT_END];
  }

  /** An area that starts with a whole item. */
  predicate StartsWithItem(buf: seq<byte>, end: nat) {
    |buf| >= 2 && buf[0] != OPT_PAD && buf[0] != OPT_END && end == 2 + buf[1] as nat && end <= |buf|
  }

  lemma FirstItem(buf: seq<byte>, end: nat)
    requires StartsWithItem(buf, end)
    ensures ParseItems(buf) == [Item(buf[0], buf[2..end])] + ParseItems(buf[end..])
  {
  }

  lemma SameFirstItem(a: seq<byte>, b: seq<byte>, end: nat)
    requires StartsWithItem(a, end) && ParseItems(a[end..]) <= ParseItems(a[end..] + b)
    ensures ParseItems(a) <= ParseItems(a + b)
  {
    var s := a + b;
    assert StartsWithItem(s, end) && s[2..end] == a[2..end] && s[end..] == a[end..] + b;
    FirstItem(a, end);
    FirstItem(s, end);
  }

  /** Bytes that arrive later never change an item that was already read. */
  lemma {:induction false} ParseIsPrefixStable(a: seq<byte>, b: seq<byte>)
    ensures ParseItems(a) <= ParseItems(a + b)
    decreases |a|
  {
    if |a| == 0 || a[0] == OPT_END {
    } else if a[0] == OPT_PAD {
      ParseIsPrefixStable(a[1..], b);
      assert (a + b)[1..] == a[1..] + b;
    } else if |a| < 2 || 2 + a[1] as nat > |a| {
    } else {
      var end := 2 + a[1] as nat;
      ParseIsPrefixStable(a[end..], b);
      SameFirstItem(a, b, end);
    }
  }

  // ---- Parsed options ----

  /** The data of the first item with this code. */
  function Find(items: seq<Item>, code: byte): (r: Option<seq<byte>>)
    ensures r.None? <==> forall i :: 0 <= i < |items| ==> items[i].code != code
    ensures r.Some? ==> exists i :: 0 <= i < |items| && items[i] == Item(code, r.value)
                                    && forall j :: 0 <= j < i ==> items[j].code != code
  {
    if items == [] then None
    else if items[0].code == code then Some(items[0].data)
    else
      var r := Find(items[1..], code);
      assert items[1..] == items[1..|items|];
      assert forall i :: 0 < i < |items| ==> items[i] == items[1..][i - 1];
      assert r.Some? ==> exists i :: 0 < i < |items| && items[i] == Item(code, r.value)
                                     && forall j :: 0 <= j < i ==> items[j].code != code by {
        if r.Some? {
          var k :| 0 <= k < |items[1..]| && items[1..][k] == Item(code, r.value)
                   && forall j :: 0 <= j < k ==> items[1..][j].code != code;
          assert items[k + 1] == Item(code, r.value);
        }
      }
      r
  }

  /** Hostname-safe characters: what a client may leave in a log line or in the lease file. */
  predicate HostnameSafe(c: char) {
    '0' <= c <= '9' || 'A' <= c <= 'Z' || 'a' <= c <= 'z' || c == '-' || c == '.' || c == '_'
  }

  function Sanitize(raw: seq<byte>): (s: string)
    ensures forall i :: 0 <= i < |s| ==> HostnameSafe(s[i])
  {
    if raw == [] then ""
    else (if HostnameSafe(raw[0] as char) then [raw[0] as char] else []) + Sanitize(raw[1..])
  }

  /** Sanitizing works byte by byte: safe characters stay in order, all others vanish. */
  lemma {:induction false} SanitizeFilters(a: seq<byte>, b: byte)
    ensures Sanitize(a + [b]) == Sanitize(a) + (if HostnameSafe(b as char) then [b as char] else [])
  {
    if a == [] {
      assert a + [b] == [b] && [b][1..] == [];
    } else {
      SanitizeFilters(a[1..], b);
      assert (a + [b])[1..] == a[1..] + [b];
    }
  }

  /** Decode a 4-byte address value; any other length counts as absent. */
  function Ipv4(data: Option<seq<byte>>): Option<u32> {
    if data.Some? && |data.value| == 4 then Some(FromOctets(data.value)) else None
  }

  datatype Options = Options(items: seq<Item>) {
    function Get(code: byte): Option<seq<byte>> {
      Find(items, code)
    }

    function MsgType(): Option<MessageType> {
      var d := Get(OPT_MSG_TYPE);
      if d.Some? && |d.value| == 1 then FromU8(d.value[0]) else None
    }

    function RequestedIp(): Option<u32> {
      Ipv4(Get(OPT_REQUESTED_IP))
    }

    function ServerId(): Option<u32> {
      Ipv4(Get(OPT_SERVER_ID))
    }

    function ParamRequestList(): Option<seq<byte>> {
      var d := Get(OPT_PARAM_REQUEST_LIST);
      if d.Some? && d.value != [] then d else None
    }

    function Hostname(): Option<string> {
      var d := Get(OPT_HOSTNAME);
      if d.None? then None
      else
        var s := Sanitize(d.value);
        if s == "" then None else Some(s)
    }
  }

  /** One turn of the parser at index `i`: skip padding, stop, or take an item. */
  lemma ParseAt(buf: seq<byte>, i: nat)
    requires i < |buf|
    ensures buf[i] == 0 ==> ParseItems(buf[i..]) == ParseItems(buf[i + 1..])
    ensures buf[i] == 255 ==> ParseItems(buf[i..]) == []
    ensures buf[i] != 0 && (i + 1 >= |buf| || i + 2 + buf[i + 1] > |buf|) ==> ParseItems(buf[i..]) == []
    ensures buf[i] != 0 && buf[i] != 255 && i + 1 < |buf| && i + 2 + buf[i + 1] <= |buf| ==>
              var end := i + 2 + buf[i + 1];
              ParseItems(buf[i..]) == [Item(buf[i], buf[i + 2..end])] + ParseItems(buf[end..])
  {
    var rest := buf[i..];
    assert rest[0] == buf[i];
    assert rest[1..] == buf[i + 1..];
    if i + 1 < |buf| && i + 2 + buf[i + 1] <= |buf| {
      assert rest[2..2 + rest[1]] == buf[i + 2..i + 2 + buf[i + 1]];
      assert rest[2 + rest[1]..] == buf[i + 2 + buf[i + 1]..];
    }
  }

  /** The parser's index loop: every read is in bounds, and the result is what the bytes denote. */
  method Parse(buf: seq<byte>) returns (o: Options)
    ensures o.items == ParseItems(buf)
  {
    var items := [];
    var i := 0;
    assert buf[0..] == buf;
    while i < |buf|
      invariant 0 <= i <= |buf|
      invariant items + ParseItems(buf[i..]) == ParseItems(buf)
      decreases |buf| - i
    {
      ParseAt(buf, i);
      var code := buf[i];
      if code == OPT_PAD {
        i := i + 1;
        continue;
      }
      if code == OPT_END {
        break;
      }
      if i + 1 >= |buf| {
        break;
      }
      var len := buf[i + 1];
      var start := i + 2;
      var end := start + len;
      if end > |buf| {
        break;
      }
      items := items + [Item(code, buf[start..end])];
      i := end;
    }
    assert ParseItems(buf[i..]) == [];
    o := Options(items);
  }

  /** Collects the options of a reply as bytes, in the order they are pushed. */
  class OptionsWriter {
    var buf: seq<byte>

    constructor ()
      ensures buf == []
    {
      buf := [];
    }

    /** The source asserts that the payload length fits its single byte. */
    method Push(code: byte, data: seq<byte>)
      requires |data| <= 255
      modifies this
      ensures buf == old(buf) + EncodeItem(Item(code, data))
    {
      buf := buf + [code];
      buf := buf + [|data|];
      buf := buf + data;
    }

    method PushU8(code: byte, v: byte)
      modifies this
      ensures buf == old(buf) + EncodeItem(Item(code, [v]))
    {
      Push(code, [v]);
    }

    method PushU32(code: byte, v: u32)
      modifies this
      ensures buf == old(buf) + EncodeItem(Item(code, Octets(v)))
    {
      Push(code, Octets(v));
    }

    method PushIpv4(code: byte, ip: u32)
      modifies this
      ensures buf == old(buf) + EncodeItem(Item(code, Octets(ip)))
    {
      Push(code, Octets(ip));
    }

    method PushIpv4List(code: byte, ips: seq<u32>)
      requires |ips| <= 63
      modifies this
      ensures buf == old(buf) + EncodeItem(Item(code, OctetsOfAll(ips)))
    {
      var data: seq<byte> := [];
      for i := 0 to |ips|
        invariant data == OctetsOfAll(ips[..i])
        invariant buf == old(buf)
      {
        OctetsOfAllAppend(ips[..i], ips[i]);
        assert ips[..i + 1] == ips[..i] + [ips[i]];
        data := data + Octets(ips[i]);
      }
      assert ips[..|ips|] == ips;
      Push(code, data);
    }

    /** Append the end mark and hand the bytes over. */
    method Finish() returns (out: seq<byte>)
      modifies this
      ensures out == old(buf) + [OPT_END]
    {
      buf := buf + [OPT_END];
      out := buf;
    }
  }

  function OctetsOfAll(ips: seq<u32>): (b: seq<byte>)
    ensures |b| == 4 * |ips|
  {
    if ips == [] then [] else Octets(ips[0]) + OctetsOfAll(ips[1..])
  }

  /** Reading the list back: each address sits at four times its index. */
  lemma {:induction false} OctetsOfAllAt(ips: seq<u32>, i: nat)
    requires i < |ips|
    ensures FromOctets(OctetsOfAll(ips)[4 * i..4 * i + 4]) == ips[i]
  {
    var b := OctetsOfAll(ips);
    if i == 0 {
      assert b[0..4] == Octets(ips[0]);
    } else {
      OctetsOfAllAt(ips[1..], i - 1);
      assert b[4 * i..4 * i + 4] == OctetsOfAll(ips[1..])[4 * (i - 1)..4 * (i - 1) + 4];
    }
  }

  lemma {:induction false} OctetsOfAllAppend(ips: seq<u32>, ip: u32)
    ensures OctetsOfAll(ips + [ip]) == OctetsOfAll(ips) + Octets(ip)
  {
    if ips == [] {
      assert OctetsOfAll([ip]) == Octets(ip) + OctetsOfAll([]);
    } else {
      OctetsOfAllAppend(ips[1..], ip);
      assert (ips + [ip])[1..] == ips[1..] + [ip];
    }
  }
}
