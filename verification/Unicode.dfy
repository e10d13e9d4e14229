/**
 Text as sequences of code points, and the two byte-level forms the library converts between:
 UTF-8 (RFC 3629) and UTF-16 (RFC 2781).  Everything here is specification: batch encodings,
 batch decodings that report each malformed piece as one `Bad` item, and the RFC grammar.
 Bit operations are written as arithmetic: `x & 0x3F` is `x % 64`, `x << 6` is `x * 64`,
 `(x & 0xC0) == 0x80` is `x / 64 == 2`.
 */
module Unicode {
  import opened Core

  predicate IsValidCodePoint(value: int) {
    0 <= value <= 0x10FFFF && !(0xD800 <= value <= 0xDFFF)
  }

  type CodePoint = v: int | 0 <= v < 0xD800 || 0xDFFF < v <= 0x10FFFF
  const REPLACEMENT: CodePoint := 0xFFFD

  /** One decoded unit of text: a code point, or one malformed piece. */
  datatype Item = Char(codePoint: CodePoint) | Bad

  function Chars(points: seq<CodePoint>): (items: seq<Item>)
    ensures |items| == |points|
    ensures forall i :: 0 <= i < |points| ==> items[i] == Char(points[i])
  {
    seq(|points|, i requires 0 <= i < |points| => Char(points[i]))
  }

  function ReplaceItem(item: Item): CodePoint { if item.Char? then item.codePoint else REPLACEMENT }

  /** The Replace policy: every malformed piece becomes U+FFFD. */
  function Replaced(items: seq<Item>): (points: seq<CodePoint>)
    ensures |points| == |items|
    ensures forall i :: 0 <= i < |items| ==> points[i] == ReplaceItem(items[i])
  {
    seq(|items|, i requires 0 <= i < |items| => ReplaceItem(items[i]))
  }

  /** The Reject policy accepts exactly the item lists without a malformed piece. */
  predicate Clean(items: seq<Item>) {
    forall i :: 0 <= i < |items| ==> items[i].Char?
  }

  // ---------------------------------------------------------------- UTF-8

  function Utf8Of(c: CodePoint): (bytes: seq<Byte>)
    ensures 1 <= |bytes| <= 4
  {
    var last: Byte := 0x80 + c % 64;
    if c <= 0x7F then var only: Byte := c; [only]
    else if c <= 0x7FF then var lead: Byte := 0xC0 + c / 64; [lead, last]
    else
      var third: Byte := 0x80 + c / 64 % 64;
      if c <= 0xFFFF then var lead: Byte := 0xE0 + c / 4096; [lead, third, last]
      else
        var lead: Byte := 0xF0 + c / 262144;
        var second: Byte := 0x80 + c / 4096 % 64;
        [lead, second, third, last]
  }

  function EncodeUtf8(points: seq<CodePoint>): seq<Byte> {
    if points == [] then [] else Utf8Of(points[0]) + EncodeUtf8(points[1..])
  }

  /** `(b & 0xC0) == 0x80` */
  predicate IsContinuation(b: Byte) { 0x80 <= b <= 0xBF }

  /** Continuation bytes announced by a lead byte; `None` for a byte that cannot start a character. */
  function TailNeeded(lead: Byte): (n: Option<nat>)
    ensures n.Some? ==> n.value <= 3
  {
    if lead <= 0x7F then Some(0)
    else if 0xC2 <= lead <= 0xDF then Some(1)
    else if 0xE0 <= lead <= 0xEF then Some(2)
    else if 0xF0 <= lead <= 0xF4 then Some(3)
    else None
  }

  /** The payload of a continuation byte, `b & 0x3F`. */
  function SixBits(b: Byte): (bits: nat)
    ensures bits < 64
    ensures IsContinuation(b) ==> bits == b - 0x80
  {
    b % 64
  }

  /** What a lead byte contributes: `b`, `b & 0x1F`, `b & 0x0F` or `b & 0x07`. */
  function LeadBits(lead: Byte): (bits: nat)
    ensures 0xC0 <= lead <= 0xDF ==> bits == lead - 0xC0
    ensures 0xE0 <= lead <= 0xEF ==> bits == lead - 0xE0
    ensures 0xF0 <= lead <= 0xF7 ==> bits == lead - 0xF0
  {
    if lead <= 0x7F then lead
    else if lead <= 0xDF then lead % 32
    else if lead <= 0xEF then lead % 16
    else lead % 8
  }

  function LeadMinimum(lead: Byte): nat {
    if lead <= 0x7F then 0
    else if lead <= 0xDF then 0x80
    else if lead <= 0xEF then 0x800
    else 0x10000
  }

  /** The value gathered from a lead byte and the continuation bytes after it. */
  function Payload(bytes: seq<Byte>): (v: nat)
    requires bytes != []
  {
    if |bytes| == 1 then LeadBits(bytes[0])
    else Payload(bytes[..|bytes| - 1]) * 64 + SixBits(bytes[|bytes| - 1])
  }

  /** What a complete character's bytes stand for: overlong forms, surrogates and values past U+10FFFF are bad. */
  function Assemble(bytes: seq<Byte>): Item
    requires bytes != []
  {
    var value := Payload(bytes);
    if value >= LeadMinimum(bytes[0]) && IsValidCodePoint(value) then Char(value) else Bad
  }

  /** How many continuation bytes stand at the front of `bytes`, up to `limit`. */
  function TailLength(bytes: seq<Byte>, limit: nat): (n: nat)
    ensures n <= limit && n <= |bytes|
    ensures forall i :: 0 <= i < n ==> IsContinuation(bytes[i])
    ensures n < limit && n < |bytes| ==> !IsContinuation(bytes[n])
  {
    if limit == 0 || bytes == [] || !IsContinuation(bytes[0]) then 0
    else 1 + TailLength(bytes[1..], limit - 1)
  }

  /** How many bytes the first item takes. */
  function FirstTaken(bytes: seq<Byte>): (n: nat)
    requires bytes != []
    ensures 1 <= n <= |bytes| && forall i :: 1 <= i < n ==> IsContinuation(bytes[i])
  {
    match TailNeeded(bytes[0])
    case None => 1
    case Some(need) =>
      var tail := TailLength(bytes[1..], need);
      assert forall i :: 0 <= i < tail ==> bytes[i + 1] == bytes[1..][i];
      tail + 1
  }

  function FirstItem(bytes: seq<Byte>): Item
    requires bytes != []
  {
    if TailNeeded(bytes[0]) == Some(FirstTaken(bytes) - 1) then Assemble(bytes[..FirstTaken(bytes)]) else Bad
  }

  /** Batch decoding of a whole byte string. */
  function Utf8Items(bytes: seq<Byte>): seq<Item>
    decreases |bytes|
  {
    if bytes == [] then [] else [FirstItem(bytes)] + Utf8Items(bytes[FirstTaken(bytes)..])
  }

  // ------------------------------------------- the grammar of RFC 3629 section 4

  predicate IsTail(b: Byte) { 0x80 <= b <= 0xBF }

  predicate IsUtf8Char(s: seq<Byte>) {
    || (|s| == 1 && s[0] <= 0x7F)
    || (|s| == 2 && 0xC2 <= s[0] <= 0xDF && IsTail(s[1]))
    || (|s| == 3 && IsTail(s[2]) && (
          || (s[0] == 0xE0 && 0xA0 <= s[1] <= 0xBF)
          || (0xE1 <= s[0] <= 0xEC && IsTail(s[1]))
          || (s[0] == 0xED && 0x80 <= s[1] <= 0x9F)
          || (0xEE <= s[0] <= 0xEF && IsTail(s[1]))))
    || (|s| == 4 && IsTail(s[2]) && IsTail(s[3]) && (
          || (s[0] == 0xF0 && 0x90 <= s[1] <= 0xBF)
          || (0xF1 <= s[0] <= 0xF3 && IsTail(s[1]))
          || (s[0] == 0xF4 && 0x80 <= s[1] <= 0x8F)))
  }

  /** UTF8-octets = *( UTF8-char ) */
  predicate WellFormed(s: seq<Byte>)
    decreases |s|
  {
    s == [] || exists n: nat :: 1 <= n <= |s| && IsUtf8Char(s[..n]) && WellFormed(s[n..])
  }

  // ---------------------------------------------------------------- UTF-16

  predicate IsHigh(u: int) { 0xD800 <= u <= 0xDBFF }
  predicate IsLow(u: int) { 0xDC00 <= u <= 0xDFFF }

  function Utf16Of(c: CodePoint): (units: seq<Char16>)
    ensures 1 <= |units| <= 2
  {
    if c <= 0xFFFF then var only: Char16 := c; [only]
    else
      var high: Char16 := 0xD800 + (c - 0x10000) / 1024;
      var low: Char16 := 0xDC00 + (c - 0x10000) % 1024;
      [high, low]
  }

  function EncodeUtf16(points: seq<CodePoint>): seq<Char16> {
    if points == [] then [] else Utf16Of(points[0]) + EncodeUtf16(points[1..])
  }

  function JoinSurrogates(high: Char16, low: Char16): (c: CodePoint)
    requires IsHigh(high) && IsLow(low)
  {
    0x10000 + (high - 0xD800) * 1024 + (low - 0xDC00)
  }

  function Utf16Items(units: seq<Char16>): seq<Item>
    decreases |units|
  {
    if units == [] then []
    else if IsHigh(units[0]) then
      if |units| >= 2 && IsLow(units[1])
      then [Char(JoinSurrogates(units[0], units[1]))] + Utf16Items(units[2..])
      else [Bad] + Utf16Items(units[1..])
    else if IsLow(units[0]) then [Bad] + Utf16Items(units[1..])
    else [Char(units[0])] + Utf16Items(units[1..])
  }

  // ---------------------------------------------------------------- laws

  lemma {:induction false} EncodeUtf8Append(a: seq<CodePoint>, b: seq<CodePoint>)
    ensures EncodeUtf8(a + b) == EncodeUtf8(a) + EncodeUtf8(b)
  {
    if a == [] {
      assert a + b == b;
    } else {
      assert (a + b)[1..] == a[1..] + b;
      EncodeUtf8Append(a[1..], b);
    }
  }

  lemma {:induction false} EncodeUtf16Append(a: seq<CodePoint>, b: seq<CodePoint>)
    ensures EncodeUtf16(a + b) == EncodeUtf16(a) + EncodeUtf16(b)
  {
    if a == [] {
      assert a + b == b;
    } else {
      assert (a + b)[1..] == a[1..] + b;
      EncodeUtf16Append(a[1..], b);
    }
  }

  /** A run of continuation bytes in front counts in full. */
  lemma {:induction false} TailLengthOver(front: seq<Byte>, back: seq<Byte>, limit: nat)
    requires |front| <= limit && forall i :: 0 <= i < |front| ==> IsContinuation(front[i])
    ensures TailLength(front + back, limit) == |front| + TailLength(back, limit - |front|)
  {
    if front == [] {
      assert front + back == back;
    } else {
      assert (front + back)[1..] == front[1..] + back;
      TailLengthOver(front[1..], back, limit - 1);
    }
  }

  lemma PayloadAppend(bytes: seq<Byte>, b: Byte)
    requires bytes != []
    ensures Payload(bytes + [b]) == Payload(bytes) * 64 + SixBits(b)
  {
    assert (bytes + [b])[..|bytes|] == bytes;
  }

  /** `Payload` spelled out for each length a character can have. */
  lemma {:induction false} PayloadByLength(s: seq<Byte>)
    requires 1 <= |s| <= 4
    ensures |s| == 2 ==> Payload(s) == LeadBits(s[0]) * 64 + SixBits(s[1])
    ensures |s| == 3 ==> Payload(s) == LeadBits(s[0]) * 4096 + SixBits(s[1]) * 64 + SixBits(s[2])
    ensures |s| == 4 ==>
      Payload(s) == LeadBits(s[0]) * 262144 + SixBits(s[1]) * 4096 + SixBits(s[2]) * 64 + SixBits(s[3])
  {
    if |s| > 1 {
      hide LeadBits, SixBits;
      var front, last := s[..|s| - 1], s[|s| - 1];
      PayloadByLength(front);
      assert Payload(s) == Payload(front) * 64 + SixBits(last);
    }
  }

  /** The shape batch decoding gathers: a lead byte and exactly the continuation bytes it announces. */
  predicate IsGathered(s: seq<Byte>) {
    && s != [] && TailNeeded(s[0]) == Some(|s| - 1)
    && forall i :: 1 <= i < |s| ==> IsContinuation(s[i])
  }

  /** The value of gathered bytes as plain sums. */
  lemma GatheredPayload(s: seq<Byte>)
    requires IsGathered(s)
    ensures |s| == 1 ==> Payload(s) == s[0]
    ensures |s| == 2 ==> Payload(s) == SumOfSixes(0, 0, s[0] - 0xC0, s[1] - 0x80)
    ensures |s| == 3 ==> Payload(s) == SumOfSixes(0, s[0] - 0xE0, s[1] - 0x80, s[2] - 0x80)
    ensures |s| == 4 ==> Payload(s) == SumOfSixes(s[0] - 0xF0, s[1] - 0x80, s[2] - 0x80, s[3] - 0x80)
  {
    PayloadByLength(s);
  }

  function SumOfSixes(a: int, x: int, y: int, z: int): int { a * 262144 + x * 4096 + y * 64 + z }

  /** Digits in base 64 can be read off again. */
  lemma SixBitDigits(a: nat, x: nat, y: nat, z: nat)
    requires x < 64 && y < 64 && z < 64
    ensures var c := SumOfSixes(a, x, y, z);
            c % 64 == z && c / 64 % 64 == y && c / 4096 % 64 == x && c / 262144 == a
              && c / 64 == a * 4096 + x * 64 + y && c / 4096 == a * 64 + x
  {
    var c := SumOfSixes(a, x, y, z);
    assert c / 64 == a * 4096 + x * 64 + y;
    assert c / 4096 == a * 64 + x;
  }

  lemma SixBitSum(c: nat)
    ensures c == SumOfSixes(c / 262144, c / 4096 % 64, c / 64 % 64, c % 64)
  {
    assert c == c / 64 * 64 + c % 64;
    var d := c / 64;
    assert d == d / 64 * 64 + d % 64;
    assert d / 64 == c / 4096;
    var e := c / 4096;
    assert e == e / 64 * 64 + e % 64;
    assert e / 64 == c / 262144;
  }

  /** A surrogate pair carries the upper ten bits of what is above U+FFFF, and then the lower ten. */
  lemma Utf16OfHalves(c: CodePoint, high: nat, low: nat)
    requires high < 0x400 && low < 0x400 && c == 0x10000 + high * 0x400 + low
    ensures Utf16Of(c) == [0xD800 + high, 0xDC00 + low]
    ensures Utf16Items([0xD800 + high, 0xDC00 + low]) == [Char(c)]
  {
    assert [0xD800 + high, 0xDC00 + low][2..] == [];
  }

  /** Examples of section 7 of RFC 3629 and section 5 of RFC 2781. */
  lemma KnownEncodings()
    ensures Utf8Of(0x2262) == [0xE2, 0x89, 0xA2] && Utf8Of(0x391) == [0xCE, 0x91]
    ensures Utf8Of(0x233B4) == [0xF0, 0xA3, 0x8E, 0xB4] && Utf16Of(0x12345) == [0xD808, 0xDF45]
  {
  }

  /** The encoding of a code point given by its base-64 digits. */
  lemma Utf8OfDigits(c: CodePoint, a: nat, x: nat, y: nat, z: nat)
    requires x < 64 && y < 64 && z < 64 && c == SumOfSixes(a, x, y, z)
    ensures c <= 0x7F ==> Utf8Of(c) == [c]
    ensures 0x7F < c <= 0x7FF ==> Utf8Of(c) == [0xC0 + y, 0x80 + z]
    ensures 0x7FF < c <= 0xFFFF ==> Utf8Of(c) == [0xE0 + x, 0x80 + y, 0x80 + z]
    ensures 0xFFFF < c ==> Utf8Of(c) == [0xF0 + a, 0x80 + x, 0x80 + y, 0x80 + z]
  {
    SixBitDigits(a, x, y, z);
  }

  /** The bytes of one code point assemble back to it. */
  lemma Utf8OfAssembles(c: CodePoint)
    ensures IsGathered(Utf8Of(c)) && Assemble(Utf8Of(c)) == Char(c)
  {
    SixBitSum(c);
    AssembleDigits(c, c / 262144, c / 4096 % 64, c / 64 % 64, c % 64);
  }

  lemma AssembleDigits(c: CodePoint, a: nat, x: nat, y: nat, z: nat)
    requires x < 64 && y < 64 && z < 64 && c == SumOfSixes(a, x, y, z)
    ensures IsGathered(Utf8Of(c)) && Assemble(Utf8Of(c)) == Char(c)
  {
    hide Utf8Of, Payload, IsGathered, Assemble;
    Utf8OfDigits(c, a, x, y, z);
    EncodedIsGathered(Utf8Of(c), c, a, x, y, z);
    GatheredPayload(Utf8Of(c));
    AssembleGathered(Utf8Of(c), c);
  }

  /** The digits of an encoding as lead byte and continuation bytes. */
  lemma EncodedIsGathered(s: seq<Byte>, c: CodePoint, a: nat, x: nat, y: nat, z: nat)
    requires x < 64 && y < 64 && z < 64 && c == SumOfSixes(a, x, y, z)
    requires c <= 0x7F ==> s == [c]
    requires 0x7F < c <= 0x7FF ==> s == [0xC0 + y, 0x80 + z]
    requires 0x7FF < c <= 0xFFFF ==> s == [0xE0 + x, 0x80 + y, 0x80 + z]
    requires 0xFFFF < c ==> s == [0xF0 + a, 0x80 + x, 0x80 + y, 0x80 + z]
    ensures IsGathered(s) && LeadMinimum(s[0]) <= c
    ensures |s| == 1 ==> c == s[0]
    ensures |s| == 2 ==> c == SumOfSixes(0, 0, s[0] - 0xC0, s[1] - 0x80)
    ensures |s| == 3 ==> c == SumOfSixes(0, s[0] - 0xE0, s[1] - 0x80, s[2] - 0x80)
    ensures |s| == 4 ==> c == SumOfSixes(s[0] - 0xF0, s[1] - 0x80, s[2] - 0x80, s[3] - 0x80)
    ensures |s| <= 4
  {
  }

  lemma AssembleGathered(s: seq<Byte>, c: CodePoint)
    requires s != [] && Payload(s) == c && LeadMinimum(s[0]) <= c
    ensures Assemble(s) == Char(c)
  {
  }

  /** Gathered bytes that assemble to a code point are exactly that code point's encoding. */
  lemma AssembleIsEncoding(s: seq<Byte>)
    requires IsGathered(s) && Assemble(s).Char?
    ensures s == Utf8Of(Assemble(s).codePoint)
  {
    hide Payload;
    GatheredPayload(s);
    if |s| == 2 {
      SixBitDigits(0, 0, s[0] - 0xC0, s[1] - 0x80);
    } else if |s| == 3 {
      SixBitDigits(0, s[0] - 0xE0, s[1] - 0x80, s[2] - 0x80);
    } else if |s| == 4 {
      SixBitDigits(s[0] - 0xF0, s[1] - 0x80, s[2] - 0x80, s[3] - 0x80);
    }
  }

  /** Gathered bytes assemble to a code point exactly when they are a UTF8-char of the grammar. */
  lemma AssembleIffGrammar(s: seq<Byte>)
    requires IsGathered(s)
    ensures Assemble(s).Char? <==> IsUtf8Char(s)
  {
    hide Payload;
    GatheredPayload(s);
  }

  lemma Utf8CharIsGathered(s: seq<Byte>)
    requires IsUtf8Char(s)
    ensures IsGathered(s)
  {
  }

  /** Batch decoding takes a gathered character off the front in one piece. */
  lemma Utf8ItemsOfGathered(head: seq<Byte>, rest: seq<Byte>)
    requires IsGathered(head)
    ensures Utf8Items(head + rest) == [Assemble(head)] + Utf8Items(rest)
  {
    var all := head + rest;
    assert all[1..] == head[1..] + rest;
    TailLengthOver(head[1..], rest, |head| - 1);
    assert all[..|head|] == head && all[|head|..] == rest;
  }

  /** If the first item is a code point, the bytes start with the gathered character it came from. */
  lemma FirstItemIsGathered(bytes: seq<Byte>) returns (n: nat)
    requires bytes != [] && Utf8Items(bytes)[0].Char?
    ensures 1 <= n <= |bytes| && IsGathered(bytes[..n])
    ensures Utf8Items(bytes) == [Assemble(bytes[..n])] + Utf8Items(bytes[n..])
  {
    n := TailNeeded(bytes[0]).value + 1;
    assert forall i :: 1 <= i < n ==> bytes[..n][i] == bytes[1..][i - 1];
  }

  lemma Utf8ItemsOfCodePoint(c: CodePoint, rest: seq<Byte>)
    ensures Utf8Items(Utf8Of(c) + rest) == [Char(c)] + Utf8Items(rest)
  {
    hide Utf8Items, Assemble, Utf8Of, IsGathered;
    Utf8OfAssembles(c);
    Utf8ItemsOfGathered(Utf8Of(c), rest);
  }

  lemma CharsOf(points: seq<CodePoint>)
    requires points != []
    ensures Chars(points) == [Char(points[0])] + Chars(points[1..])
  {
  }

  /** Decoding undoes encoding. */
  lemma {:induction false} DecodeEncodeUtf8(points: seq<CodePoint>)
    ensures Utf8Items(EncodeUtf8(points)) == Chars(points)
  {
    if points == [] {
    } else {
      hide Utf8Items, Utf8Of, Chars;
      DecodeEncodeUtf8(points[1..]);
      Utf8ItemsOfCodePoint(points[0], EncodeUtf8(points[1..]));
      CharsOf(points);
    }
  }

  /** Encoding undoes decoding on every string the Reject policy accepts. */
  lemma {:induction false} EncodeDecodeUtf8(bytes: seq<Byte>)
    requires Clean(Utf8Items(bytes))
    ensures EncodeUtf8(Replaced(Utf8Items(bytes))) == bytes
    decreases |bytes|
  {
    hide Assemble, IsGathered, Utf8Of, FirstItem, FirstTaken;
    if bytes == [] {
    } else {
      var items := Utf8Items(bytes);
      var n := FirstItemIsGathered(bytes);
      AssembleIsEncoding(bytes[..n]);
      assert Utf8Items(bytes[n..]) == items[1..];
      EncodeDecodeUtf8(bytes[n..]);
      assert Replaced(items)[1..] == Replaced(Utf8Items(bytes[n..]));
      assert bytes == bytes[..n] + bytes[n..];
    }
  }

  lemma GrammarTakesOneItem(bytes: seq<Byte>, n: nat)
    requires 1 <= n <= |bytes| && IsUtf8Char(bytes[..n])
    ensures Assemble(bytes[..n]).Char?
    ensures Utf8Items(bytes) == [Assemble(bytes[..n])] + Utf8Items(bytes[n..])
  {
    Utf8CharIsGathered(bytes[..n]);
    AssembleIffGrammar(bytes[..n]);
    Utf8ItemsOfGathered(bytes[..n], bytes[n..]);
    assert bytes == bytes[..n] + bytes[n..];
  }

  /** Main result: the Reject policy accepts exactly the strings of the RFC 3629 grammar. */
  lemma {:induction false} AcceptsExactlyTheGrammar(bytes: seq<Byte>)
    ensures WellFormed(bytes) <==> Clean(Utf8Items(bytes))
    decreases |bytes|
  {
    hide Assemble, IsGathered, IsUtf8Char, TailLength, TailNeeded;
    if bytes != [] {
      if WellFormed(bytes) {
        var n: nat :| 1 <= n <= |bytes| && IsUtf8Char(bytes[..n]) && WellFormed(bytes[n..]);
        GrammarTakesOneItem(bytes, n);
        AcceptsExactlyTheGrammar(bytes[n..]);
      }
      if Clean(Utf8Items(bytes)) {
        var n := FirstItemIsGathered(bytes);
        AssembleIffGrammar(bytes[..n]);
        assert Utf8Items(bytes[n..]) == Utf8Items(bytes)[1..];
        AcceptsExactlyTheGrammar(bytes[n..]);
      }
    }
  }

  lemma Utf16ItemsOfCodePoint(c: CodePoint, rest: seq<Char16>)
    ensures Utf16Items(Utf16Of(c) + rest) == [Char(c)] + Utf16Items(rest)
  {
    var all := Utf16Of(c) + rest;
    assert all[|Utf16Of(c)|..] == rest;
  }

  lemma {:induction false} DecodeEncodeUtf16(points: seq<CodePoint>)
    ensures Utf16Items(EncodeUtf16(points)) == Chars(points)
  {
    if points == [] {
    } else {
      hide Utf16Items, Utf16Of, Chars;
      DecodeEncodeUtf16(points[1..]);
      Utf16ItemsOfCodePoint(points[0], EncodeUtf16(points[1..]));
      CharsOf(points);
    }
  }

  /** If the first item is a code point, the units start with its encoding. */
  lemma FirstUnits(units: seq<Char16>) returns (n: nat)
    requires units != [] && Clean(Utf16Items(units))
    ensures 1 <= n <= |units| && Utf16Items(units) != [] && Utf16Items(units)[0].Char?
    ensures Utf16Of(Utf16Items(units)[0].codePoint) == units[..n] && Utf16Items(units[n..]) == Utf16Items(units)[1..]
  {
    assert Utf16Items(units)[0].Char?;
    n := if IsHigh(units[0]) then 2 else 1;
  }

  lemma {:induction false} EncodeDecodeUtf16(units: seq<Char16>)
    requires Clean(Utf16Items(units))
    ensures EncodeUtf16(Replaced(Utf16Items(units))) == units
    decreases |units|
  {
    if units == [] {
    } else {
      hide Utf16Of, Utf16Items;
      var items := Utf16Items(units);
      var n := FirstUnits(units);
      EncodeDecodeUtf16(units[n..]);
      assert Replaced(items)[1..] == Replaced(Utf16Items(units[n..]));
      assert units == units[..n] + units[n..];
    }
  }

  /** On well-formed text the two conversions are mutual inverses. */
  lemma ConversionsAreInverse(bytes: seq<Byte>, units: seq<Char16>)
    requires WellFormed(bytes) && Clean(Utf16Items(units))
    ensures var there := EncodeUtf16(Replaced(Utf8Items(bytes)));
            Clean(Utf16Items(there)) && EncodeUtf8(Replaced(Utf16Items(there))) == bytes
    ensures var back := EncodeUtf8(Replaced(Utf16Items(units)));
            WellFormed(back) && EncodeUtf16(Replaced(Utf8Items(back))) == units
  {
    AcceptsExactlyTheGrammar(bytes);
    var points := Replaced(Utf8Items(bytes));
    DecodeEncodeUtf16(points);
    assert Replaced(Chars(points)) == points;
    EncodeDecodeUtf8(bytes);

    var wide := Replaced(Utf16Items(units));
    DecodeEncodeUtf8(wide);
    assert Replaced(Chars(wide)) == wide;
    AcceptsExactlyTheGrammar(EncodeUtf8(wide));
    EncodeDecodeUtf16(units);
  }

  /** Under Replace the UTF-16 form never has more units than the UTF-8 form has bytes. */
  lemma {:induction false} Utf16NoLonger(bytes: seq<Byte>)
    ensures |EncodeUtf16(Replaced(Utf8Items(bytes)))| <= |bytes|
    decreases |bytes|
  {
    if bytes == [] {
    } else {
      var items := Utf8Items(bytes);
      Utf16NoLonger(bytes[FirstTaken(bytes)..]);
      assert Replaced(items)[1..] == Replaced(items[1..]);
      if items[0].Char? {
        var n := FirstItemIsGathered(bytes);
        AssembleIsEncoding(bytes[..n]);
      }
    }
  }
}
