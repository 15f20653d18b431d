/** The application/x-www-form-urlencoded serializer behind `URLSearchParams`
    (section 5.2 of the WHATWG URL Standard), and the matching parser of
    section 5.1 used as its inverse. Strings are UTF-8 encoded before
    serializing. */
module FormUrlEncoded {
  import opened Wrappers
  import opened Strings

  newtype byte = x: int | 0 <= x < 256

  /** One name/value tuple of a `URLSearchParams` list. */
  type Pair = (string, string)

  // ---------------------------------------------------------------- UTF-8

  /** A UTF-8 continuation byte, 10xxxxxx. */
  predicate IsContinuation(b: byte) { 0x80 <= b < 0xC0 }

  /** The UTF-8 encoding of one Unicode scalar value. */
  function EncodeChar(c: char): (bs: seq<byte>)
    ensures 1 <= |bs| <= 4
    ensures |bs| == 1 <==> c as int < 0x80
    ensures |bs| == 1 ==> bs[0] as int == c as int
    ensures |bs| > 1 ==> forall k :: 0 <= k < |bs| ==> bs[k] >= 0x80
  {
    var n := c as int;
    if n < 0x80 then [n as byte]
    else if n < 0x800 then [(0xC0 + n / 64) as byte, (0x80 + n % 64) as byte]
    else if n < 0x10000 then
      [(0xE0 + n / 4096) as byte, (0x80 + (n / 64) % 64) as byte, (0x80 + n % 64) as byte]
    else
      [(0xF0 + n / 262144) as byte, (0x80 + (n / 4096) % 64) as byte,
       (0x80 + (n / 64) % 64) as byte, (0x80 + n % 64) as byte]
  }

  /** The UTF-8 encoding of a string. */
  function Utf8Encode(s: string): (bs: seq<byte>)
    decreases |s|
  {
    if s == [] then [] else EncodeChar(s[0]) + Utf8Encode(s[1..])
  }

  /** Decodes the first scalar value of `bs`, with the number of bytes it
      takes; None on a malformed, overlong or surrogate sequence. */
  function DecodeChar(bs: seq<byte>): (r: Option<(char, nat)>)
    requires |bs| > 0
    ensures r.Some? ==> 1 <= r.value.1 <= |bs|
  {
    var b0 := bs[0] as int;
    if b0 < 0x80 then Some((b0 as char, 1))
    else if 0xC0 <= b0 < 0xE0 && |bs| >= 2 && IsContinuation(bs[1]) then
      var n := (b0 - 0xC0) * 64 + (bs[1] as int - 0x80);
      if n < 0x80 then None else Some((n as char, 2))
    else if 0xE0 <= b0 < 0xF0 && |bs| >= 3 && IsContinuation(bs[1]) && IsContinuation(bs[2]) then
      var n := (b0 - 0xE0) * 4096 + (bs[1] as int - 0x80) * 64 + (bs[2] as int - 0x80);
      if n < 0x800 || 0xD800 <= n < 0xE000 then None else Some((n as char, 3))
    else if 0xF0 <= b0 < 0xF8 && |bs| >= 4 && IsContinuation(bs[1])
            && IsContinuation(bs[2]) && IsContinuation(bs[3]) then
      var n := (b0 - 0xF0) * 262144 + (bs[1] as int - 0x80) * 4096
               + (bs[2] as int - 0x80) * 64 + (bs[3] as int - 0x80);
      if n < 0x10000 || n > 0x10FFFF then None else Some((n as char, 4))
    else None
  }

  /** Strict UTF-8 decoding; None on any malformed input. */
  function Utf8Decode(bs: seq<byte>): (r: Option<string>)
    decreases |bs|
  {
    if bs == [] then Some([])
    else match DecodeChar(bs)
      case None => None
      case Some((c, k)) =>
        match Utf8Decode(bs[k..])
        case None => None
        case Some(s) => Some([c] + s)
  }

  lemma Div64(n: int)
    requires 0 <= n
    ensures n == (n / 64) * 64 + n % 64
  {
  }

  /** Decoding undoes the encoding of one character, whatever follows it. */
  lemma DecodeEncodeChar(c: char, rest: seq<byte>)
    ensures DecodeChar(EncodeChar(c) + rest) == Some((c, |EncodeChar(c)|))
  {
    var n := c as int;
    var bs := EncodeChar(c) + rest;
    if n < 0x80 {
    } else if n < 0x800 {
      Div64(n);
      assert bs[0] as int - 0xC0 == n / 64;
    } else if n < 0x10000 {
      Div64(n);
      Div64(n / 64);
      assert n / 64 / 64 == n / 4096;
      assert bs[0] as int - 0xE0 == n / 4096;
      assert bs[1] as int - 0x80 == (n / 64) % 64;
      assert (bs[0] as int - 0xE0) * 4096 + (bs[1] as int - 0x80) * 64 == (n / 64) * 64;
    } else {
      Div64(n);
      Div64(n / 64);
      Div64(n / 4096);
      assert n / 64 / 64 == n / 4096;
      assert n / 4096 / 64 == n / 262144;
      assert bs[0] as int - 0xF0 == n / 262144;
      assert bs[1] as int - 0x80 == (n / 4096) % 64;
      assert bs[2] as int - 0x80 == (n / 64) % 64;
      assert (bs[0] as int - 0xF0) * 64 + (bs[1] as int - 0x80) == n / 4096;
      assert (bs[0] as int - 0xF0) * 4096 + (bs[1] as int - 0x80) * 64 + (bs[2] as int - 0x80) == n / 64;
    }
  }

  /** UTF-8 decoding is the inverse of UTF-8 encoding. */
  lemma {:induction false} Utf8RoundTrip(s: string)
    ensures Utf8Decode(Utf8Encode(s)) == Some(s)
    decreases |s|
  {
    if s != [] {
      var e := EncodeChar(s[0]);
      DecodeEncodeChar(s[0], Utf8Encode(s[1..]));
      assert (e + Utf8Encode(s[1..]))[|e|..] == Utf8Encode(s[1..]);
      Utf8RoundTrip(s[1..]);
      assert [s[0]] + s[1..] == s;
    }
  }

  // ---------------------------------------------------------- serializing

  /** Bytes the serializer copies as they are: ASCII alphanumerics and
      `*`, `-`, `.`, `_`. */
  predicate IsUnreservedByte(b: byte)
  {
    b == 0x2A || b == 0x2D || b == 0x2E || 0x30 <= b <= 0x39
    || 0x41 <= b <= 0x5A || b == 0x5F || 0x61 <= b <= 0x7A
  }

  /** The characters whose UTF-8 byte is unreserved. */
  predicate IsUnreservedChar(c: char)
    ensures IsUnreservedChar(c) ==> c as int < 0x80 && IsUnreservedByte(c as int as byte)
  {
    c == '*' || c == '-' || c == '.' || '0' <= c <= '9' || 'A' <= c <= 'Z' || c == '_' || 'a' <= c <= 'z'
  }

  /** An upper-case hexadecimal digit, as percent-encoding writes them. */
  function HexDigit(d: int): (c: char)
    requires 0 <= d < 16
  {
    if d < 10 then ('0' as int + d) as char else ('A' as int + d - 10) as char
  }

  predicate IsHexChar(c: char)
  {
    '0' <= c <= '9' || 'A' <= c <= 'F' || 'a' <= c <= 'f'
  }

  function HexValue(c: char): (d: int)
    requires IsHexChar(c)
    ensures 0 <= d < 16
  {
    if '0' <= c <= '9' then c as int - '0' as int
    else if 'A' <= c <= 'F' then c as int - 'A' as int + 10
    else c as int - 'a' as int + 10
  }

  /** The characters the serializer can produce. */
  predicate IsSerializedChar(c: char)
  {
    c == '+' || c == '%' || (c as int < 0x80 && IsUnreservedByte(c as int as byte))
  }

  /** The urlencoded serialization of one byte: a space becomes `+`, an
      unreserved byte is copied, any other byte becomes `%XX`. */
  function SerializeByte(b: byte): (s: string)
  {
    if b == 0x20 then "+"
    else if IsUnreservedByte(b) then [b as int as char]
    else ['%', HexDigit(b as int / 16), HexDigit(b as int % 16)]
  }

  function SerializeBytes(bs: seq<byte>): (s: string)
    decreases |bs|
  {
    if bs == [] then [] else SerializeByte(bs[0]) + SerializeBytes(bs[1..])
  }

  /** The serializer writes only `+`, `%` and unreserved characters (so
      never `&` or `=`). */
  lemma {:induction false} SerializedAlphabet(bs: seq<byte>)
    ensures forall k :: 0 <= k < |SerializeBytes(bs)| ==> IsSerializedChar(SerializeBytes(bs)[k])
    decreases |bs|
  {
    if bs != [] {
      SerializedAlphabet(bs[1..]);
      var head, tail := SerializeByte(bs[0]), SerializeBytes(bs[1..]);
      assert forall k :: 0 <= k < |head| ==> IsSerializedChar(head[k]);
      assert forall k :: 0 <= k < |tail| ==> (head + tail)[|head| + k] == tail[k];
    }
  }

  /** The serialization of a name or a value: its UTF-8 bytes, serialized. */
  function SerializeComponent(s: string): (r: string)
    ensures '&' !in r && '=' !in r
  {
    var r := SerializeBytes(Utf8Encode(s));
    SerializedAlphabet(Utf8Encode(s));
    assert !IsSerializedChar('&') && !IsSerializedChar('=');
    r
  }

  /** `name=value` for one tuple. */
  function SerializePair(p: Pair): (r: string)
    ensures r != [] && '&' !in r
  {
    SerializeComponent(p.0) + "=" + SerializeComponent(p.1)
  }

  function SerializePairs(ps: seq<Pair>): (r: seq<string>)
    ensures |r| == |ps|
    ensures forall k :: 0 <= k < |r| ==> r[k] == SerializePair(ps[k])
    decreases |ps|
  {
    if ps == [] then [] else [SerializePair(ps[0])] + SerializePairs(ps[1..])
  }

  /** `new URLSearchParams(ps).toString()`: the serialized tuples, in
      order, joined by `&`. */
  function Serialize(ps: seq<Pair>): (r: string)
  {
    Join(SerializePairs(ps), '&')
  }

  // -------------------------------------------------------------- parsing

  /** Percent-decoding of a name or value as the parser does it: `+` is a
      space, `%XX` with two hex digits is that byte, anything else is its
      own UTF-8 bytes. */
  function PercentDecode(s: string): (bs: seq<byte>)
    decreases |s|
  {
    if s == [] then []
    else if s[0] == '+' then [0x20] + PercentDecode(s[1..])
    else if s[0] == '%' && |s| >= 3 && IsHexChar(s[1]) && IsHexChar(s[2]) then
      [(HexValue(s[1]) * 16 + HexValue(s[2])) as byte] + PercentDecode(s[3..])
    else EncodeChar(s[0]) + PercentDecode(s[1..])
  }

  /** Parses one `&`-separated piece into a tuple: the name is the text
      before the first `=`, the value everything after it. */
  function ParsePiece(piece: string): (r: Option<Pair>)
  {
    var i := IndexOf(piece, '=');
    var name := piece[..i];
    var value := if i < |piece| then piece[i + 1..] else "";
    match (Utf8Decode(PercentDecode(name)), Utf8Decode(PercentDecode(value)))
    case (Some(n), Some(v)) => Some((n, v))
    case _ => None
  }

  function ParsePieces(pieces: seq<string>): (r: Option<seq<Pair>>)
    decreases |pieces|
  {
    if pieces == [] then Some([])
    else if pieces[0] == [] then ParsePieces(pieces[1..])
    else
      match (ParsePiece(pieces[0]), ParsePieces(pieces[1..]))
      case (Some(p), Some(ps)) => Some([p] + ps)
      case _ => None
  }

  /** The application/x-www-form-urlencoded parser: split on `&`, skip
      empty pieces, parse the rest. None where the bytes are not UTF-8. */
  function Parse(s: string): (r: Option<seq<Pair>>)
  {
    ParsePieces(Split(s, '&'))
  }

  // --------------------------------------------------------------- proofs

  lemma HexDigitValue(d: int)
    requires 0 <= d < 16
    ensures IsHexChar(HexDigit(d)) && HexValue(HexDigit(d)) == d
  {
  }

  /** Percent-decoding undoes the serialization of one byte. */
  lemma DecodeSerializeByte(b: byte, rest: string)
    ensures PercentDecode(SerializeByte(b) + rest) == [b] + PercentDecode(rest)
  {
    var s := SerializeByte(b) + rest;
    if b == 0x20 {
      assert s[1..] == rest;
    } else if IsUnreservedByte(b) {
      assert s[0] == b as int as char && s[1..] == rest;
    } else {
      HexDigitValue(b as int / 16);
      HexDigitValue(b as int % 16);
      assert s[1] == HexDigit(b as int / 16) && s[2] == HexDigit(b as int % 16);
      assert s[3..] == rest;
    }
  }

  /** Percent-decoding is the inverse of the byte serializer. */
  lemma {:induction false} DecodeSerializeBytes(bs: seq<byte>)
    ensures PercentDecode(SerializeBytes(bs)) == bs
    decreases |bs|
  {
    if bs != [] {
      DecodeSerializeByte(bs[0], SerializeBytes(bs[1..]));
      DecodeSerializeBytes(bs[1..]);
      assert [bs[0]] + bs[1..] == bs;
    }
  }

  /** A name or value reads back as itself. */
  lemma ComponentRoundTrip(s: string)
    ensures Utf8Decode(PercentDecode(SerializeComponent(s))) == Some(s)
  {
    DecodeSerializeBytes(Utf8Encode(s));
    Utf8RoundTrip(s);
  }

  /** One serialized tuple parses back to the tuple. */
  lemma PairRoundTrip(p: Pair)
    ensures ParsePiece(SerializePair(p)) == Some(p)
  {
    var n, v := SerializeComponent(p.0), SerializeComponent(p.1);
    var piece := SerializePair(p);
    assert piece[|n|] == '=';
    assert forall j :: 0 <= j < |n| ==> piece[j] == n[j];
    assert IndexOf(piece, '=') == |n|;
    assert piece[..|n|] == n;
    assert piece[|n| + 1..] == v;
    ComponentRoundTrip(p.0);
    ComponentRoundTrip(p.1);
  }

  lemma {:induction false} PiecesRoundTrip(ps: seq<Pair>)
    ensures ParsePieces(SerializePairs(ps)) == Some(ps)
    decreases |ps|
  {
    if ps != [] {
      var pieces := SerializePairs(ps);
      assert pieces[1..] == SerializePairs(ps[1..]);
      PairRoundTrip(ps[0]);
      PiecesRoundTrip(ps[1..]);
      assert [ps[0]] + ps[1..] == ps;
    }
  }

  /** What `URLSearchParams` serializes, the form parser reads back as the
      same tuples in the same order. */
  lemma SerializeRoundTrip(ps: seq<Pair>)
    ensures Parse(Serialize(ps)) == Some(ps)
  {
    var pieces := SerializePairs(ps);
    if ps == [] {
      assert Serialize(ps) == "";
      assert Split("", '&') == [""];
    } else {
      JoinSplit(pieces, '&');
      PiecesRoundTrip(ps);
    }
  }

  /** A string of unreserved ASCII characters serializes to itself. */
  lemma {:induction false} SerializeUnreserved(s: string)
    requires forall k :: 0 <= k < |s| ==> IsUnreservedChar(s[k])
    ensures SerializeComponent(s) == s
    decreases |s|
  {
    if s != [] {
      SerializeUnreserved(s[1..]);
      UnreservedCharCopied(s[0]);
      SerializeComponentAppend([s[0]], s[1..]);
      assert [s[0]] + s[1..] == s;
    }
  }

  /** An unreserved character serializes to itself. */
  lemma UnreservedCharCopied(c: char)
    requires IsUnreservedChar(c)
    ensures SerializeComponent([c]) == [c]
  {
    var b := c as int as byte;
    assert [c][1..] == [];
    assert Utf8Encode([c]) == [b];
    assert [b][1..] == [];
    assert SerializeBytes([b]) == SerializeByte(b);
  }

  lemma {:induction false} Utf8EncodeAppend(a: string, b: string)
    ensures Utf8Encode(a + b) == Utf8Encode(a) + Utf8Encode(b)
    decreases |a|
  {
    if a != [] {
      assert (a + b)[0] == a[0] && (a + b)[1..] == a[1..] + b;
      Utf8EncodeAppend(a[1..], b);
      assert Utf8Encode(a + b) == EncodeChar(a[0]) + (Utf8Encode(a[1..]) + Utf8Encode(b));
    } else {
      assert a + b == b;
    }
  }

  lemma {:induction false} SerializeBytesAppend(a: seq<byte>, b: seq<byte>)
    ensures SerializeBytes(a + b) == SerializeBytes(a) + SerializeBytes(b)
    decreases |a|
  {
    if a != [] {
      assert (a + b)[0] == a[0] && (a + b)[1..] == a[1..] + b;
      SerializeBytesAppend(a[1..], b);
      assert SerializeBytes(a + b) == SerializeByte(a[0]) + (SerializeBytes(a[1..]) + SerializeBytes(b));
    } else {
      assert a + b == b;
    }
  }

  /** Serialization works character by character: it distributes over
      concatenation. */
  lemma SerializeComponentAppend(a: string, b: string)
    ensures SerializeComponent(a + b) == SerializeComponent(a) + SerializeComponent(b)
  {
    Utf8EncodeAppend(a, b);
    SerializeBytesAppend(Utf8Encode(a), Utf8Encode(b));
  }

  /** All characters of `s` are unreserved. */
  predicate AllUnreserved(s: string)
  {
    forall k :: 0 <= k < |s| ==> IsUnreservedChar(s[k])
  }

  /** An ASCII character outside the unreserved set, other than a space,
      serializes as `%` and its two upper-case hex digits. */
  lemma SerializeReservedChar(c: char, hi: char, lo: char)
    requires c as int < 0x80 && !IsUnreservedChar(c) && c != ' '
    requires hi == HexDigit(c as int / 16) && lo == HexDigit(c as int % 16)
    ensures SerializeComponent([c]) == ['%', hi, lo]
  {
    var b := c as int as byte;
    assert [c][1..] == [];
    assert Utf8Encode([c]) == [b];
    assert [b][1..] == [];
    assert SerializeBytes([b]) == SerializeByte(b);
  }

  lemma AppendStep(a: string, b: string, ea: string, eb: string)
    requires SerializeComponent(a) == ea && SerializeComponent(b) == eb
    ensures SerializeComponent(a + b) == ea + eb
  {
    SerializeComponentAppend(a, b);
  }

  /** A URI of the shape `scheme://host:port/path` (each part unreserved)
      goes into the query with its `:` and `/` percent-encoded, as in
      `http%3A%2F%2Flocalhost%3A4000%2Fcallback`. */
  lemma SerializeHttpUri(scheme: string, host: string, port: string, path: string)
    requires AllUnreserved(scheme) && AllUnreserved(host) && AllUnreserved(port) && AllUnreserved(path)
    ensures SerializeComponent(scheme + "://" + host + ":" + port + "/" + path)
         == scheme + "%3A%2F%2F" + host + "%3A" + port + "%2F" + path
  {
    SerializeUnreserved(scheme);
    SerializeUnreserved(host);
    SerializeUnreserved(port);
    SerializeUnreserved(path);
    SerializeReservedChar(':', '3', 'A');
    SerializeReservedChar('/', '2', 'F');
    AppendStep(scheme, ":", scheme, "%3A");
    AppendStep(scheme + ":", "/", scheme + "%3A", "%2F");
    AppendStep(scheme + ":" + "/", "/", scheme + "%3A" + "%2F", "%2F");
    assert scheme + ":" + "/" + "/" == scheme + "://";
    assert scheme + "%3A" + "%2F" + "%2F" == scheme + "%3A%2F%2F";
    AppendStep(scheme + "://", host, scheme + "%3A%2F%2F", host);
    AppendStep(scheme + "://" + host, ":", scheme + "%3A%2F%2F" + host, "%3A");
    AppendStep(scheme + "://" + host + ":", port, scheme + "%3A%2F%2F" + host + "%3A", port);
    AppendStep(scheme + "://" + host + ":" + port, "/", scheme + "%3A%2F%2F" + host + "%3A" + port, "%2F");
    AppendStep(scheme + "://" + host + ":" + port + "/", path,
               scheme + "%3A%2F%2F" + host + "%3A" + port + "%2F", path);
  }

  /** A space serializes as `+`, so the scope `openid profile email`
      is sent as `openid+profile+email`. */
  lemma SerializeSpaces(a: string, b: string, c: string)
    requires AllUnreserved(a) && AllUnreserved(b) && AllUnreserved(c)
    ensures SerializeComponent(a + " " + b + " " + c) == a + "+" + b + "+" + c
  {
    SerializeUnreserved(a);
    SerializeUnreserved(b);
    SerializeUnreserved(c);
    assert [' '][1..] == [];
    assert Utf8Encode(" ") == [0x20];
    assert SerializeBytes([0x20]) == "+";
    AppendStep(a, " ", a, "+");
    AppendStep(a + " ", b, a + "+", b);
    AppendStep(a + " " + b, " ", a + "+" + b, "+");
    AppendStep(a + " " + b + " ", c, a + "+" + b + "+", c);
  }

  /** The `&`-separated pieces of a serialized non-empty list are its
      serialized tuples. */
  lemma SerializeSplit(ps: seq<Pair>)
    requires ps != []
    ensures Split(Serialize(ps), '&') == SerializePairs(ps)
  {
    JoinSplit(SerializePairs(ps), '&');
  }

  /** A tuple whose name needs no escaping is sent as the name, `=`, and
      the serialized value. */
  lemma PairText(name: string, value: string, encoded: string, text: string)
    requires AllUnreserved(name) && SerializeComponent(value) == encoded
    requires text == name + "=" + encoded
    ensures SerializePair((name, value)) == text
  {
    SerializeUnreserved(name);
  }
}
