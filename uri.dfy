/** `encodeURIComponent` of the JavaScript host, used to put a service
    message into a redirect's query string, with the decoder that
    `decodeURIComponent` applies to the result, so that the round trip can be
    stated. Characters are Unicode scalar values; a string of UTF-16 code
    units holding a lone surrogate (on which the host's encoder throws) has no
    counterpart here. */
module UriComponent {
  import opened Common

  /** The characters `encodeURIComponent` leaves as they are. */
  predicate IsUnreserved(c: char) {
    ('A' <= c <= 'Z') || ('a' <= c <= 'z') || ('0' <= c <= '9')
    || c == '-' || c == '_' || c == '.' || c == '!' || c == '~'
    || c == '*' || c == '\'' || c == '(' || c == ')'
  }

  predicate IsUpperHexDigit(c: char) {
    ('0' <= c <= '9') || ('A' <= c <= 'F')
  }

  /** The UTF-8 encoding of one scalar value, as byte values. */
  function Utf8(c: char): (bytes: seq<int>)
    ensures 1 <= |bytes| <= 4
    ensures forall i :: 0 <= i < |bytes| ==> 0 <= bytes[i] < 256
  {
    var n := c as int;
    if n < 0x80 then [n]
    else if n < 0x800 then [0xC0 + n / 64, 0x80 + n % 64]
    else if n < 0x10000 then [0xE0 + n / 4096, 0x80 + (n / 64) % 64, 0x80 + n % 64]
    else [0xF0 + n / 262144, 0x80 + (n / 4096) % 64, 0x80 + (n / 64) % 64, 0x80 + n % 64]
  }

  function HexDigit(d: int): (c: char)
    requires 0 <= d < 16
    ensures IsUpperHexDigit(c)
  {
    if d < 10 then ('0' as int + d) as char else ('A' as int + d - 10) as char
  }

  /** `%XY` with upper-case hexadecimal digits. */
  function PercentByte(b: int): (t: string)
    requires 0 <= b < 256
    ensures |t| == 3 && t[0] == '%'
  {
    ['%', HexDigit(b / 16), HexDigit(b % 16)]
  }

  function PercentBytes(bytes: seq<int>): (t: string)
    requires forall i :: 0 <= i < |bytes| ==> 0 <= bytes[i] < 256
    ensures |t| == 3 * |bytes|
  {
    if bytes == [] then [] else PercentByte(bytes[0]) + PercentBytes(bytes[1..])
  }

  function EncodeChar(c: char): string {
    if IsUnreserved(c) then [c] else PercentBytes(Utf8(c))
  }

  /** `encodeURIComponent(s)` */
  function Encode(s: string): string {
    if s == [] then [] else EncodeChar(s[0]) + Encode(s[1..])
  }

  /** The value of one hexadecimal digit, either case. */
  function HexValue(c: char): Option<int> {
    if '0' <= c <= '9' then Some(c as int - '0' as int)
    else if 'A' <= c <= 'F' then Some(c as int - 'A' as int + 10)
    else if 'a' <= c <= 'f' then Some(c as int - 'a' as int + 10)
    else None
  }

  /** The byte written as `%XY` at the start of `t`, if there is one. */
  function ByteAt(t: string): (b: Option<int>)
    ensures b.Some? ==> |t| >= 3 && 0 <= b.value < 256
  {
    if |t| < 3 || t[0] != '%' then None
    else match (HexValue(t[1]), HexValue(t[2]))
      case (Some(hi), Some(lo)) =>
        if 0 <= hi < 16 && 0 <= lo < 16 then Some(16 * hi + lo) else None
      case _ => None
  }

  /** A continuation byte `10xxxxxx` at the start of `t`, as its six payload bits. */
  function ContinuationAt(t: string): (x: Option<int>)
    ensures x.Some? ==> |t| >= 3 && 0 <= x.value < 64
  {
    match ByteAt(t)
    case Some(b) => if 0x80 <= b < 0xC0 then Some(b - 0x80) else None
    case None => None
  }

  predicate IsScalar(n: int) {
    (0 <= n < 0xD800) || (0xE000 <= n < 0x110000)
  }

  /** Decodes the escape sequence of one character at the start of `t`
      (`t` starts with `%`): the character and how many characters of `t` it
      took. Fails as `decodeURIComponent` does: a lead byte that is not one,
      a missing or malformed continuation, an overlong form, a surrogate or a
      value past U+10FFFF. */
  function DecodeEscape(t: string): (r: Option<(char, nat)>)
    ensures r.Some? ==> 3 <= r.value.1 <= |t|
  {
    match ByteAt(t)
    case None => None
    case Some(b0) =>
      if b0 < 0x80 then Some((b0 as char, 3))
      else if b0 < 0xC0 || 0xF8 <= b0 then None
      else if b0 < 0xE0 then
        match ContinuationAt(t[3..])
        case None => None
        case Some(x1) =>
          var n := (b0 - 0xC0) * 64 + x1;
          if 0x80 <= n then Some((n as char, 6)) else None
      else if b0 < 0xF0 then
        match (ContinuationAt(t[3..]), if |t| >= 6 then ContinuationAt(t[6..]) else None)
        case (Some(x1), Some(x2)) =>
          var n := (b0 - 0xE0) * 4096 + x1 * 64 + x2;
          if 0x800 <= n && IsScalar(n) then Some((n as char, 9)) else None
        case _ => None
      else
        match (ContinuationAt(t[3..]), if |t| >= 6 then ContinuationAt(t[6..]) else None,
               if |t| >= 9 then ContinuationAt(t[9..]) else None)
        case (Some(x1), Some(x2), Some(x3)) =>
          var n := (b0 - 0xF0) * 262144 + x1 * 4096 + x2 * 64 + x3;
          if 0x10000 <= n < 0x110000 then Some((n as char, 12)) else None
        case _ => None
  }

  function Prepend(c: char, r: Option<string>): Option<string> {
    match r
    case Some(s) => Some([c] + s)
    case None => None
  }

  /** `decodeURIComponent(t)`, `None` where it throws. */
  function Decode(t: string): Option<string>
    decreases |t|
  {
    if t == [] then Some([])
    else if t[0] != '%' then Prepend(t[0], Decode(t[1..]))
    else match DecodeEscape(t)
      case None => None
      case Some((c, k)) => Prepend(c, Decode(t[k..]))
  }

  lemma HexRoundTrip(d: int)
    requires 0 <= d < 16
    ensures HexValue(HexDigit(d)) == Some(d)
  {
  }

  lemma ByteAtPercentByte(b: int, rest: string)
    requires 0 <= b < 256
    ensures ByteAt(PercentByte(b) + rest) == Some(b)
    ensures (PercentByte(b) + rest)[3..] == rest
  {
    HexRoundTrip(b / 16);
    HexRoundTrip(b % 16);
  }

  lemma Recompose3(n: int)
    requires 0 <= n
    ensures (n / 4096) * 4096 + ((n / 64) % 64) * 64 + n % 64 == n
  {
    var q := n / 64;
    assert n == q * 64 + n % 64;
    assert q == (q / 64) * 64 + q % 64;
    assert q / 64 == n / 4096;
  }

  lemma Recompose4(n: int)
    requires 0 <= n
    ensures (n / 262144) * 262144 + ((n / 4096) % 64) * 4096 + ((n / 64) % 64) * 64 + n % 64 == n
  {
    var q := n / 4096;
    Recompose3(n);
    assert q == (q / 64) * 64 + q % 64;
    assert q / 64 == n / 262144;
  }

  lemma DecodeTwo(b0: int, b1: int, rest: string)
    requires 0xC0 <= b0 < 0xE0 && 0x80 <= b1 < 0xC0
    requires 0x80 <= (b0 - 0xC0) * 64 + (b1 - 0x80)
    ensures DecodeEscape(PercentByte(b0) + PercentByte(b1) + rest)
         == Some((((b0 - 0xC0) * 64 + (b1 - 0x80)) as char, 6))
  {
    var t1 := PercentByte(b1) + rest;
    assert PercentByte(b0) + PercentByte(b1) + rest == PercentByte(b0) + t1;
    ByteAtPercentByte(b0, t1);
    ByteAtPercentByte(b1, rest);
  }

  lemma DecodeThree(b0: int, b1: int, b2: int, rest: string)
    requires 0xE0 <= b0 < 0xF0 && 0x80 <= b1 < 0xC0 && 0x80 <= b2 < 0xC0
    requires var n := (b0 - 0xE0) * 4096 + (b1 - 0x80) * 64 + (b2 - 0x80); 0x800 <= n && IsScalar(n)
    ensures DecodeEscape(PercentByte(b0) + PercentByte(b1) + PercentByte(b2) + rest)
         == Some((((b0 - 0xE0) * 4096 + (b1 - 0x80) * 64 + (b2 - 0x80)) as char, 9))
  {
    var t2 := PercentByte(b2) + rest;
    var t1 := PercentByte(b1) + t2;
    assert PercentByte(b0) + PercentByte(b1) + PercentByte(b2) + rest == PercentByte(b0) + t1;
    ByteAtPercentByte(b0, t1);
    ByteAtPercentByte(b1, t2);
    ByteAtPercentByte(b2, rest);
    assert (PercentByte(b0) + t1)[6..] == t2;
  }

  lemma DecodeFour(b0: int, b1: int, b2: int, b3: int, rest: string)
    requires 0xF0 <= b0 < 0xF8 && 0x80 <= b1 < 0xC0 && 0x80 <= b2 < 0xC0 && 0x80 <= b3 < 0xC0
    requires var n := (b0 - 0xF0) * 262144 + (b1 - 0x80) * 4096 + (b2 - 0x80) * 64 + (b3 - 0x80);
      0x10000 <= n < 0x110000
    ensures DecodeEscape(PercentByte(b0) + PercentByte(b1) + PercentByte(b2) + PercentByte(b3) + rest)
         == Some((((b0 - 0xF0) * 262144 + (b1 - 0x80) * 4096 + (b2 - 0x80) * 64 + (b3 - 0x80)) as char, 12))
  {
    var t3 := PercentByte(b3) + rest;
    var t2 := PercentByte(b2) + t3;
    var t1 := PercentByte(b1) + t2;
    var t := PercentByte(b0) + t1;
    assert PercentByte(b0) + PercentByte(b1) + PercentByte(b2) + PercentByte(b3) + rest == t;
    ByteAtPercentByte(b0, t1);
    ByteAtPercentByte(b1, t2);
    ByteAtPercentByte(b2, t3);
    ByteAtPercentByte(b3, rest);
    assert t[6..] == t2;
    assert t[9..] == t3;
  }

  /** Decoding the escapes of one character gives that character back and
      consumes exactly them. */
  lemma DecodeEscapeOfChar(c: char, rest: string)
    requires c as int >= 0x80
    ensures DecodeEscape(PercentBytes(Utf8(c)) + rest) == Some((c, |PercentBytes(Utf8(c))|))
  {
    var n := c as int;
    var bs := Utf8(c);
    if n < 0x800 {
      assert PercentBytes(bs) == PercentByte(bs[0]) + PercentByte(bs[1]);
      assert (bs[0] - 0xC0) * 64 + (bs[1] - 0x80) == n;
      DecodeTwo(bs[0], bs[1], rest);
    } else if n < 0x10000 {
      EscapeOfThreeByteChar(c, rest);
    } else {
      EscapeOfFourByteChar(c, rest);
    }
  }

  lemma EscapeOfThreeByteChar(c: char, rest: string)
    requires 0x800 <= c as int < 0x10000
    ensures DecodeEscape(PercentBytes(Utf8(c)) + rest) == Some((c, |PercentBytes(Utf8(c))|))
  {
    var n := c as int;
    var bs := Utf8(c);
    assert PercentBytes(bs[1..]) == PercentByte(bs[1]) + PercentBytes(bs[2..]);
    assert PercentBytes(bs) == PercentByte(bs[0]) + PercentByte(bs[1]) + PercentByte(bs[2]);
    Recompose3(n);
    assert (bs[0] - 0xE0) * 4096 + (bs[1] - 0x80) * 64 + (bs[2] - 0x80) == n;
    DecodeThree(bs[0], bs[1], bs[2], rest);
  }

  lemma EscapeOfFourByteChar(c: char, rest: string)
    requires 0x10000 <= c as int
    ensures DecodeEscape(PercentBytes(Utf8(c)) + rest) == Some((c, |PercentBytes(Utf8(c))|))
  {
    var bs := Utf8(c);
    PercentBytesOfFour(bs);
    FourByteFields(c);
    DecodeFour(bs[0], bs[1], bs[2], bs[3], rest);
  }

  lemma PercentBytesOfFour(bs: seq<int>)
    requires |bs| == 4 && forall i :: 0 <= i < 4 ==> 0 <= bs[i] < 256
    ensures PercentBytes(bs) == PercentByte(bs[0]) + PercentByte(bs[1]) + PercentByte(bs[2]) + PercentByte(bs[3])
  {
    assert PercentBytes(bs[3..]) == PercentByte(bs[3]) + PercentBytes(bs[4..]);
    assert PercentBytes(bs[2..]) == PercentByte(bs[2]) + PercentBytes(bs[3..]);
    assert PercentBytes(bs[1..]) == PercentByte(bs[1]) + PercentBytes(bs[2..]);
  }

  lemma FourByteFields(c: char)
    requires 0x10000 <= c as int
    ensures var bs := Utf8(c);
      && |bs| == 4
      && 0xF0 <= bs[0] < 0xF8 && 0x80 <= bs[1] < 0xC0 && 0x80 <= bs[2] < 0xC0 && 0x80 <= bs[3] < 0xC0
      && (bs[0] - 0xF0) * 262144 + (bs[1] - 0x80) * 4096 + (bs[2] - 0x80) * 64 + (bs[3] - 0x80) == c as int
  {
    Recompose4(c as int);
  }

  lemma DecodeEncodeChar(c: char, rest: string)
    ensures Decode(EncodeChar(c) + rest) == Prepend(c, Decode(rest))
  {
    var t := EncodeChar(c) + rest;
    if IsUnreserved(c) {
      assert t[1..] == rest;
    } else if c as int < 0x80 {
      var b := c as int;
      assert Utf8(c) == [b];
      assert PercentBytes([b]) == PercentByte(b);
      ByteAtPercentByte(b, rest);
      assert t[3..] == rest;
    } else {
      DecodeEscapeOfChar(c, rest);
      assert t[|EncodeChar(c)|..] == rest;
    }
  }

  /** `decodeURIComponent(encodeURIComponent(s)) == s`: the message put in a
      query string is recovered exactly. */
  lemma {:induction false} DecodeEncode(s: string)
    ensures Decode(Encode(s)) == Some(s)
  {
    if s != [] {
      DecodeEncode(s[1..]);
      DecodeEncodeChar(s[0], Encode(s[1..]));
      assert [s[0]] + s[1..] == s;
    }
  }

  /** What `encodeURIComponent` writes is made only of unreserved characters,
      `%` and upper-case hexadecimal digits: never `&`, `=`, `#` or `?`, so it
      cannot end the query parameter it is put in. */
  lemma {:induction false} EncodeAlphabet(s: string)
    ensures forall i :: 0 <= i < |Encode(s)| ==>
      IsUnreserved(Encode(s)[i]) || Encode(s)[i] == '%' || IsUpperHexDigit(Encode(s)[i])
  {
    if s != [] {
      EncodeAlphabet(s[1..]);
      var head := EncodeChar(s[0]);
      if !IsUnreserved(s[0]) {
        PercentBytesAlphabet(Utf8(s[0]));
      }
      var e := Encode(s);
      forall i | 0 <= i < |e| ensures IsUnreserved(e[i]) || e[i] == '%' || IsUpperHexDigit(e[i]) {
        if i >= |head| {
          assert e[i] == Encode(s[1..])[i - |head|];
        }
      }
    }
  }

  lemma {:induction false} PercentBytesAlphabet(bytes: seq<int>)
    requires forall i :: 0 <= i < |bytes| ==> 0 <= bytes[i] < 256
    ensures forall i :: 0 <= i < |PercentBytes(bytes)| ==>
      PercentBytes(bytes)[i] == '%' || IsUpperHexDigit(PercentBytes(bytes)[i])
  {
    if bytes != [] {
      PercentBytesAlphabet(bytes[1..]);
      var t := PercentBytes(bytes);
      forall i | 0 <= i < |t| ensures t[i] == '%' || IsUpperHexDigit(t[i]) {
        if i >= 3 {
          assert t[i] == PercentBytes(bytes[1..])[i - 3];
        }
      }
    }
  }

  predicate AllUnreserved(s: string) {
    forall i :: 0 <= i < |s| ==> IsUnreserved(s[i])
  }

  /** A string of unreserved characters is its own encoding, so the fixed
      error codes of the sign-in action reach the query string unchanged. */
  lemma {:induction false} EncodeUnreserved(s: string)
    requires AllUnreserved(s)
    ensures Encode(s) == s
  {
    if s != [] {
      EncodeUnreserved(s[1..]);
      assert [s[0]] + s[1..] == s;
    }
  }
}
