/**
 * Form-style encoding of a query, as Python's `urllib.parse.urlencode` does it
 * with its default quoting function `quote_plus` and an empty `safe` set:
 * every key and every value is rendered with `str`, encoded as UTF-8, and each
 * byte is kept if it is one of the unreserved characters of section 2.3 of
 * RFC 3986 (letters, digits, '_', '.', '-', '~'), written '+' if it is a space,
 * and written as '%' followed by two upper-case hexadecimal digits otherwise.
 * Pairs are written `key=value` and joined with '&'.
 *
 * The decoder in this module (UnquotePlus, ParseQuery) is the reference
 * inverse against which the encoder is proved injective.
 */
module FormEncoding {
  import opened Wrappers
  import opened Decimal

  type Byte = b: int | 0 <= b < 256

  /** A value of the query dictionary: the source mixes integers and strings. */
  datatype Value = Int(i: int) | Str(s: string)

  /** A query dictionary, in insertion order. */
  type Query = seq<(string, Value)>

  /**
   * Python's `str(v)`, which `urlencode` applies to every value that is not
   * a string: an integer's rendering reads back as that integer.
   */
  function Stringify(v: Value): (s: string)
    ensures v.Int? ==> 0 < |s| && ParseInt(s) == Some(v.i)
    ensures v.Str? ==> s == v.s
  {
    match v
    case Int(i) => ParseIntToString(i); IntToString(i)
    case Str(s) => s
  }

  /** The unreserved characters of section 2.3 of RFC 3986. */
  predicate Unreserved(c: char) {
    || 'A' <= c <= 'Z'
    || 'a' <= c <= 'z'
    || '0' <= c <= '9'
    || c == '_' || c == '.' || c == '-' || c == '~'
  }

  predicate AllUnreserved(s: string) {
    forall i :: 0 <= i < |s| ==> Unreserved(s[i])
  }

  /** The characters the encoder can produce. */
  predicate EncodedChar(c: char) {
    Unreserved(c) || c == '+' || c == '%'
  }

  predicate AllEncoded(s: string) {
    forall i :: 0 <= i < |s| ==> EncodedChar(s[i])
  }

  /** The characters an encoded query can hold: encoded text, '=' and '&'. */
  predicate QueryChar(c: char) {
    EncodedChar(c) || c == '=' || c == '&'
  }

  predicate AllQueryChars(s: string) {
    forall i :: 0 <= i < |s| ==> QueryChar(s[i])
  }

  // ---------------------------------------------------------------------------
  // UTF-8

  /** The UTF-8 encoding of one Unicode scalar value. */
  function Utf8Char(c: char): (bs: seq<Byte>)
    ensures 1 <= |bs| <= 4
    ensures c as int < 0x80 <==> |bs| == 1
    ensures c as int < 0x80 ==> bs == [c as int]
    ensures 0x80 <= c as int ==> forall i :: 0 <= i < |bs| ==> 0x80 <= bs[i]
  {
    var cp := c as int;
    if cp < 0x80 then [cp]
    else if cp < 0x800 then [0xC0 + cp / 64, 0x80 + cp % 64]
    else if cp < 0x10000 then [0xE0 + cp / 4096, 0x80 + (cp / 64) % 64, 0x80 + cp % 64]
    else [0xF0 + cp / 262144, 0x80 + (cp / 4096) % 64, 0x80 + (cp / 64) % 64, 0x80 + cp % 64]
  }

  /** Python's `s.encode('utf-8')`. */
  function Utf8(s: string): (bs: seq<Byte>)
    ensures |bs| >= |s|
  {
    if |s| == 0 then [] else Utf8Char(s[0]) + Utf8(s[1..])
  }

  predicate Continuation(b: Byte) { 0x80 <= b < 0xC0 }

  /** The six payload bits of a continuation byte. */
  function Low(b: Byte): int { b as int - 0x80 }

  predicate Scalar(cp: int) { 0 <= cp < 0xD800 || 0xE000 <= cp < 0x110000 }

  function ScalarOf(cp: int, n: nat): Option<(char, nat)> {
    if Scalar(cp) then Some((cp as char, n)) else None
  }

  /** The first character of a UTF-8 byte string and the number of bytes it takes. */
  function DecodeFirst(bs: seq<Byte>): (r: Option<(char, nat)>)
    requires 0 < |bs|
    ensures r.Some? ==> 1 <= r.value.1 <= |bs|
  {
    var b0: int := bs[0];
    if b0 < 0x80 then Some((b0 as char, 1))
    else if 0xC0 <= b0 < 0xE0 && 2 <= |bs| && Continuation(bs[1]) then
      ScalarOf((b0 - 0xC0) * 64 + Low(bs[1]), 2)
    else if 0xE0 <= b0 < 0xF0 && 3 <= |bs| && Continuation(bs[1]) && Continuation(bs[2]) then
      ScalarOf((b0 - 0xE0) * 4096 + Low(bs[1]) * 64 + Low(bs[2]), 3)
    else if 0xF0 <= b0 < 0xF8 && 4 <= |bs| && Continuation(bs[1]) && Continuation(bs[2]) && Continuation(bs[3]) then
      ScalarOf((b0 - 0xF0) * 262144 + Low(bs[1]) * 4096 + Low(bs[2]) * 64 + Low(bs[3]), 4)
    else None
  }

  /** Decoding of a UTF-8 byte string; None when it is not well formed. */
  function Utf8Decode(bs: seq<Byte>): Option<string>
    decreases |bs|
  {
    if |bs| == 0 then Some([])
    else
      match DecodeFirst(bs)
      case None => None
      case Some(first) =>
        match Utf8Decode(bs[first.1..])
        case None => None
        case Some(rest) => Some([first.0] + rest)
  }

  lemma DecodeFirstOfUtf8Char(c: char, rest: seq<Byte>)
    ensures DecodeFirst(Utf8Char(c) + rest) == Some((c, |Utf8Char(c)|))
  {
    var cp := c as int;
    var bs := Utf8Char(c) + rest;
    if cp < 0x80 {
    } else if cp < 0x800 {
      assert (cp / 64) * 64 + cp % 64 == cp;
    } else if cp < 0x10000 {
      assert (cp / 64) * 64 + cp % 64 == cp;
      assert (cp / 4096) * 64 + (cp / 64) % 64 == cp / 64;
      assert (cp / 4096) * 4096 + ((cp / 64) % 64) * 64 + cp % 64 == cp;
    } else {
      assert (cp / 64) * 64 + cp % 64 == cp;
      assert (cp / 4096) * 64 + (cp / 64) % 64 == cp / 64;
      assert (cp / 262144) * 64 + (cp / 4096) % 64 == cp / 4096;
      assert (cp / 262144) * 262144 + ((cp / 4096) % 64) * 4096 + ((cp / 64) % 64) * 64 + cp % 64 == cp;
    }
  }

  /** Decoding undoes the UTF-8 encoding. */
  lemma {:induction false} Utf8RoundTrip(s: string)
    ensures Utf8Decode(Utf8(s)) == Some(s)
  {
    if |s| > 0 {
      var head := Utf8Char(s[0]);
      DecodeFirstOfUtf8Char(s[0], Utf8(s[1..]));
      assert (head + Utf8(s[1..]))[|head|..] == Utf8(s[1..]);
      Utf8RoundTrip(s[1..]);
      assert s == [s[0]] + s[1..];
    }
  }

  // ---------------------------------------------------------------------------
  // Percent-encoding of bytes (quote_plus with safe = '')

  function HexDigit(d: nat): (c: char)
    requires d < 16
    ensures Unreserved(c)
  {
    "0123456789ABCDEF"[d]
  }

  function HexValue(c: char): (r: Option<nat>)
    ensures r.Some? ==> r.value < 16
  {
    if '0' <= c <= '9' then Some(c as int - '0' as int)
    else if 'A' <= c <= 'F' then Some(c as int - 'A' as int + 10)
    else if 'a' <= c <= 'f' then Some(c as int - 'a' as int + 10)
    else None
  }

  lemma HexValueOfDigit(d: nat)
    requires d < 16
    ensures HexValue(HexDigit(d)) == Some(d)
  {
  }

  /** How `quote_plus` writes one byte of the UTF-8 encoding. */
  function QuoteByte(b: Byte): (s: string)
    ensures AllEncoded(s)
    ensures |s| == 1 || |s| == 3
  {
    if b == 0x20 then "+"
    else if Unreserved(b as char) then [b as char]
    else ['%', HexDigit(b / 16), HexDigit(b % 16)]
  }

  function QuoteBytes(bs: seq<Byte>): (s: string)
    ensures AllEncoded(s)
    ensures |s| >= |bs|
  {
    if |bs| == 0 then "" else QuoteByte(bs[0]) + QuoteBytes(bs[1..])
  }

  /** Python's `quote_plus(s, safe='')`. */
  function QuotePlus(s: string): (r: string)
    ensures AllEncoded(r)
  {
    QuoteBytes(Utf8(s))
  }

  /** Reverses the percent-encoding of bytes. */
  function UnquoteBytes(s: string): Option<seq<Byte>>
    decreases |s|
  {
    if |s| == 0 then Some([])
    else if s[0] == '+' then Prepend(0x20, UnquoteBytes(s[1..]))
    else if s[0] == '%' then
      if 3 <= |s| && HexValue(s[1]).Some? && HexValue(s[2]).Some? then
        Prepend(HexValue(s[1]).value * 16 + HexValue(s[2]).value, UnquoteBytes(s[3..]))
      else None
    else if Unreserved(s[0]) then Prepend(s[0] as int, UnquoteBytes(s[1..]))
    else None
  }

  function Prepend(b: Byte, r: Option<seq<Byte>>): Option<seq<Byte>> {
    match r
    case None => None
    case Some(bs) => Some([b] + bs)
  }

  /** The inverse of QuotePlus. */
  function UnquotePlus(s: string): Option<string> {
    match UnquoteBytes(s)
    case None => None
    case Some(bs) => Utf8Decode(bs)
  }

  lemma {:induction false} QuoteBytesAppend(a: seq<Byte>, b: seq<Byte>)
    ensures QuoteBytes(a + b) == QuoteBytes(a) + QuoteBytes(b)
  {
    if |a| == 0 {
      assert a + b == b;
    } else {
      assert (a + b)[0] == a[0];
      assert (a + b)[1..] == a[1..] + b;
      QuoteBytesAppend(a[1..], b);
      calc {
        QuoteBytes(a + b);
        QuoteByte(a[0]) + QuoteBytes(a[1..] + b);
        QuoteByte(a[0]) + (QuoteBytes(a[1..]) + QuoteBytes(b));
        (QuoteByte(a[0]) + QuoteBytes(a[1..])) + QuoteBytes(b);
      }
    }
  }

  lemma UnquoteQuoteByte(b: Byte, rest: string)
    ensures UnquoteBytes(QuoteByte(b) + rest) == Prepend(b, UnquoteBytes(rest))
  {
    var s := QuoteByte(b) + rest;
    if b == 0x20 {
      assert s[0] == '+' && s[1..] == rest;
    } else if Unreserved(b as char) {
      assert s[0] == b as char && s[1..] == rest;
      assert s[0] != '+' && s[0] != '%';
    } else {
      var hi, lo := b / 16, b % 16;
      assert s[0] == '%' && s[1] == HexDigit(hi) && s[2] == HexDigit(lo) && s[3..] == rest;
      HexValueOfDigit(hi);
      HexValueOfDigit(lo);
    }
  }

  lemma {:induction false} UnquoteQuoteBytes(bs: seq<Byte>)
    ensures UnquoteBytes(QuoteBytes(bs)) == Some(bs)
  {
    if |bs| > 0 {
      UnquoteQuoteByte(bs[0], QuoteBytes(bs[1..]));
      UnquoteQuoteBytes(bs[1..]);
      assert bs == [bs[0]] + bs[1..];
    }
  }

  /** Unquoting undoes quoting: QuotePlus loses nothing, so it is injective. */
  lemma QuotePlusRoundTrip(s: string)
    ensures UnquotePlus(QuotePlus(s)) == Some(s)
  {
    UnquoteQuoteBytes(Utf8(s));
    Utf8RoundTrip(s);
  }

  lemma QuotePlusInjective(s: string, t: string)
    ensures QuotePlus(s) == QuotePlus(t) <==> s == t
  {
    if QuotePlus(s) == QuotePlus(t) {
      QuotePlusRoundTrip(s);
      QuotePlusRoundTrip(t);
    }
  }

  /** QuotePlus of a string is the quoting of its first character followed by that of the rest. */
  lemma QuotePlusCons(s: string)
    requires 0 < |s|
    ensures QuotePlus(s) == QuoteBytes(Utf8Char(s[0])) + QuotePlus(s[1..])
  {
    QuoteBytesAppend(Utf8Char(s[0]), Utf8(s[1..]));
  }

  /**
   * A string passes through QuotePlus unchanged exactly when all its
   * characters are unreserved.
   */
  lemma {:induction false} QuotePlusIdentity(s: string)
    ensures QuotePlus(s) == s <==> AllUnreserved(s)
  {
    if |s| > 0 {
      QuotePlusCons(s);
      var c := s[0];
      var head := QuoteBytes(Utf8Char(c));
      QuoteCharFixed(c);
      QuotePlusIdentity(s[1..]);
      assert s == [c] + s[1..];
      if QuotePlus(s) == s {
        QuotePlusLength(s[1..]);
        assert |head| == 1;
        assert head[0] == c;
        assert QuotePlus(s[1..]) == s[1..];
      }
    }
  }

  /** A character is written as itself exactly when it is unreserved. */
  lemma QuoteCharFixed(c: char)
    ensures QuoteBytes(Utf8Char(c)) == [c] <==> Unreserved(c)
    ensures 1 <= |QuoteBytes(Utf8Char(c))|
  {
    var bs := Utf8Char(c);
    if c as int < 0x80 {
      assert bs == [c as int];
      assert QuoteBytes(bs) == QuoteByte(c as int);
      assert c as int as char == c;
    } else {
      assert bs == [bs[0]] + bs[1..];
      QuoteBytesAppend([bs[0]], bs[1..]);
      assert |QuoteBytes([bs[0]])| == 3;
    }
  }

  lemma {:induction false} QuotePlusLength(s: string)
    ensures |QuotePlus(s)| >= |s|
  {
    assert |QuoteBytes(Utf8(s))| >= |Utf8(s)|;
  }

  // ---------------------------------------------------------------------------
  // Joining and splitting

  /** Python's `sep.join(parts)`. */
  function Join(parts: seq<string>, sep: char): string {
    if |parts| == 0 then ""
    else if |parts| == 1 then parts[0]
    else parts[0] + [sep] + Join(parts[1..], sep)
  }

  function FirstIndex(s: string, c: char): (i: nat)
    requires c in s
    ensures i < |s| && s[i] == c
    ensures forall j :: 0 <= j < i ==> s[j] != c
  {
    if s[0] == c then 0 else 1 + FirstIndex(s[1..], c)
  }

  /** Python's `s.split(sep)`. */
  function SplitOn(s: string, sep: char): (parts: seq<string>)
    ensures 0 < |parts|
    decreases |s|
  {
    if sep !in s then [s]
    else
      var i := FirstIndex(s, sep);
      [s[..i]] + SplitOn(s[i + 1..], sep)
  }

  /** Splitting a join gives back the parts when none of them holds the separator. */
  lemma {:induction false} SplitJoin(parts: seq<string>, sep: char)
    requires 0 < |parts|
    requires forall i :: 0 <= i < |parts| ==> sep !in parts[i]
    ensures SplitOn(Join(parts, sep), sep) == parts
  {
    var s := Join(parts, sep);
    if |parts| == 1 {
      assert s == parts[0] && sep !in s;
    } else {
      var head, rest := parts[0], parts[1..];
      var tail := Join(rest, sep);
      assert s == head + [sep] + tail;
      FirstIndexAfter(head, sep, tail);
      assert SplitOn(s, sep) == [head] + SplitOn(tail, sep);
      assert forall i :: 0 <= i < |rest| ==> rest[i] == parts[i + 1];
      SplitJoin(rest, sep);
      assert parts == [head] + rest;
    }
  }

  /** Joining a split gives back the string, and no piece holds the separator. */
  lemma {:induction false} JoinSplit(s: string, sep: char)
    ensures Join(SplitOn(s, sep), sep) == s
    ensures forall k :: 0 <= k < |SplitOn(s, sep)| ==> sep !in SplitOn(s, sep)[k]
    decreases |s|
  {
    if sep in s {
      var i := FirstIndex(s, sep);
      var head, tail := s[..i], s[i + 1..];
      var rest := SplitOn(tail, sep);
      var parts := SplitOn(s, sep);
      JoinSplit(tail, sep);
      assert parts == [head] + rest;
      assert parts[1..] == rest;
      assert Join(parts, sep) == head + [sep] + Join(rest, sep);
      assert s == head + [sep] + tail;
      assert sep !in head;
      forall k | 0 <= k < |parts| ensures sep !in parts[k] {
        if k > 0 {
          assert parts[k] == rest[k - 1];
        }
      }
    }
  }

  // ---------------------------------------------------------------------------
  // urlencode and its inverse

  function EncodePair(p: (string, Value)): (s: string)
    ensures 0 < |s| && AllQueryChars(s)
  {
    QuotePlus(p.0) + "=" + QuotePlus(Stringify(p.1))
  }

  function EncodedPairs(q: Query): (parts: seq<string>)
    ensures |parts| == |q|
    ensures forall i :: 0 <= i < |q| ==> parts[i] == EncodePair(q[i])
  {
    if |q| == 0 then [] else [EncodePair(q[0])] + EncodedPairs(q[1..])
  }

  /**
   * Python's `urlencode(q)`: empty exactly for an empty query, and made only
   * of unreserved characters, '+', '%', '=' and '&'.
   */
  function UrlEncode(q: Query): (s: string)
    ensures s == "" <==> |q| == 0
    ensures AllQueryChars(s)
  {
    var parts := EncodedPairs(q);
    JoinQueryChars(parts);
    Join(parts, '&')
  }

  lemma {:induction false} JoinQueryChars(parts: seq<string>)
    requires forall k :: 0 <= k < |parts| ==> 0 < |parts[k]| && AllQueryChars(parts[k])
    ensures AllQueryChars(Join(parts, '&'))
    ensures Join(parts, '&') == "" <==> |parts| == 0
  {
    if |parts| > 1 {
      JoinQueryChars(parts[1..]);
      var s := Join(parts, '&');
      var rest := Join(parts[1..], '&');
      assert s == parts[0] + ['&'] + rest;
      forall i | 0 <= i < |s| ensures QueryChar(s[i]) {
        if i > |parts[0]| {
          assert s[i] == rest[i - |parts[0]| - 1];
        }
      }
    }
  }

  /** The pairs of a query as strings, as `urlencode` sees them. */
  function Rendered(q: Query): (r: seq<(string, string)>)
    ensures |r| == |q|
    ensures forall i :: 0 <= i < |q| ==> r[i] == (q[i].0, Stringify(q[i].1))
  {
    if |q| == 0 then [] else [(q[0].0, Stringify(q[0].1))] + Rendered(q[1..])
  }

  /** Reads one `key=value` pair back. */
  function ParsePair(p: string): Option<(string, string)> {
    if '=' !in p then None
    else
      var i := FirstIndex(p, '=');
      match (UnquotePlus(p[..i]), UnquotePlus(p[i + 1..]))
      case (Some(k), Some(v)) => Some((k, v))
      case _ => None
  }

  function ParsePairs(ps: seq<string>): (r: Option<seq<(string, string)>>)
    ensures r.Some? ==> |r.value| == |ps|
  {
    if |ps| == 0 then Some([])
    else
      match (ParsePair(ps[0]), ParsePairs(ps[1..]))
      case (Some(p), Some(rest)) => Some([p] + rest)
      case _ => None
  }

  /** Reads a form-encoded query back into its pairs. */
  function ParseQuery(s: string): Option<seq<(string, string)>> {
    if s == "" then Some([]) else ParsePairs(SplitOn(s, '&'))
  }

  /** The first occurrence of `c` in `a + [c] + b`, when `a` has none, is right after `a`. */
  lemma FirstIndexAfter(a: string, c: char, b: string)
    requires c !in a
    ensures c in a + [c] + b
    ensures FirstIndex(a + [c] + b, c) == |a|
    ensures (a + [c] + b)[..|a|] == a && (a + [c] + b)[|a| + 1..] == b
  {
    var s := a + [c] + b;
    assert s[|a|] == c;
    var i := FirstIndex(s, c);
    assert forall j :: 0 <= j < |a| ==> s[j] == a[j];
  }

  lemma NotEncoded(s: string, c: char)
    requires AllEncoded(s) && !EncodedChar(c)
    ensures c !in s
  {
  }

  lemma ParseEncodePair(p: (string, Value))
    ensures '&' !in EncodePair(p)
    ensures ParsePair(EncodePair(p)) == Some((p.0, Stringify(p.1)))
  {
    var k := QuotePlus(p.0);
    var v := QuotePlus(Stringify(p.1));
    NotEncoded(k, '=');
    NotEncoded(k, '&');
    NotEncoded(v, '&');
    assert EncodePair(p) == k + ['='] + v;
    FirstIndexAfter(k, '=', v);
    QuotePlusRoundTrip(p.0);
    QuotePlusRoundTrip(Stringify(p.1));
  }

  lemma {:induction false} ParseEncodedPairs(q: Query)
    ensures ParsePairs(EncodedPairs(q)) == Some(Rendered(q))
  {
    if |q| > 0 {
      ParseEncodePair(q[0]);
      assert EncodedPairs(q)[1..] == EncodedPairs(q[1..]);
      ParseEncodedPairs(q[1..]);
    }
  }

  /** Reading an encoded query back gives its pairs, rendered as strings, in order. */
  lemma UrlEncodeRoundTrip(q: Query)
    ensures ParseQuery(UrlEncode(q)) == Some(Rendered(q))
  {
    var parts := EncodedPairs(q);
    if |q| > 0 {
      forall i | 0 <= i < |q| ensures '&' !in parts[i] {
        ParseEncodePair(q[i]);
      }
      SplitJoin(parts, '&');
      assert '=' in parts[0];
      JoinContains(parts, '&', '=');
      ParseEncodedPairs(q);
    } else {
      assert UrlEncode(q) == "";
    }
  }

  lemma {:induction false} JoinContains(parts: seq<string>, sep: char, c: char)
    requires 0 < |parts| && c in parts[0]
    ensures c in Join(parts, sep)
  {
    if |parts| > 1 {
      var j :| 0 <= j < |parts[0]| && parts[0][j] == c;
      assert Join(parts, sep)[j] == c;
    }
  }

  /** Queries with the same encoding have the same rendered pairs. */
  lemma UrlEncodeInjective(q: Query, r: Query)
    ensures UrlEncode(q) == UrlEncode(r) ==> Rendered(q) == Rendered(r)
  {
    UrlEncodeRoundTrip(q);
    UrlEncodeRoundTrip(r);
  }

  lemma EncodePlainPair(p: (string, Value))
    requires AllUnreserved(p.0) && AllUnreserved(Stringify(p.1))
    ensures EncodePair(p) == p.0 + "=" + Stringify(p.1)
  {
    QuotePlusIdentity(p.0);
    QuotePlusIdentity(Stringify(p.1));
  }

  /** Pairs written `key=value`, with no quoting. */
  function PairTexts(pairs: seq<(string, string)>): (texts: seq<string>)
    ensures |texts| == |pairs|
  {
    seq(|pairs|, i requires 0 <= i < |pairs| => pairs[i].0 + "=" + pairs[i].1)
  }

  /**
   * When every key and every rendered value is made of unreserved characters,
   * the encoded query is exactly `k1=v1&k2=v2&...`.
   */
  lemma UrlEncodePlain(q: Query)
    requires forall i :: 0 <= i < |q| ==> AllUnreserved(q[i].0) && AllUnreserved(Stringify(q[i].1))
    ensures UrlEncode(q) == Join(PairTexts(Rendered(q)), '&')
  {
    var plain := PairTexts(Rendered(q));
    var encoded := EncodedPairs(q);
    forall i | 0 <= i < |q| ensures encoded[i] == plain[i] {
      EncodePlainPair(q[i]);
    }
    assert encoded == plain;
  }
}
