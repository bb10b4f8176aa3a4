// The two pure helpers of the file list view (public/js/fileList.js):
// `encodeFilePath`, which runs `encodeURIComponent` over each
// "/"-separated segment of a path, and `formatSize`, which picks a unit
// for a byte count. `encodeURIComponent` is the function of section
// 19.2.6.5 of ECMA-262: every character outside the letters, the digits
// and -_.!~*'() becomes the UTF-8 bytes of its code point, each written
// as "%" and two upper-case hexadecimal digits (percent-encoding, section
// 2.1 of RFC 3986). `decodeURIComponent` (section 19.2.6.3) is modelled
// beside it as its partner.

module FileList {
  import opened Wrappers
  import opened Paths

  newtype Byte = b: int | 0 <= b < 256

  // ---------------------------------------------------------------------
  // encodeURIComponent

  /** The characters `encodeURIComponent` leaves as they are. */
  predicate Unreserved(c: char)
  {
    ('a' <= c <= 'z') || ('A' <= c <= 'Z') || ('0' <= c <= '9') ||
    c == '-' || c == '_' || c == '.' || c == '!' || c == '~' || c == '*' ||
    c == '\'' || c == '(' || c == ')'
  }

  /** The UTF-8 encoding of a code point (section 3.9 of Unicode). */
  function Utf8(c: char): (r: seq<Byte>)
  {
    var n := c as int;
    if n < 0x80 then [n as Byte]
    else if n < 0x800 then [(0xC0 + n / 64) as Byte, (0x80 + n % 64) as Byte]
    else if n < 0x10000 then
      [(0xE0 + n / 4096) as Byte, (0x80 + n / 64 % 64) as Byte, (0x80 + n % 64) as Byte]
    else
      [(0xF0 + n / 262144) as Byte, (0x80 + n / 4096 % 64) as Byte,
       (0x80 + n / 64 % 64) as Byte, (0x80 + n % 64) as Byte]
  }

  /** An upper-case hexadecimal digit. */
  function HexDigit(d: int): char
    requires 0 <= d < 16
  {
    if d < 10 then ('0' as int + d) as char else ('A' as int + d - 10) as char
  }

  /** Each byte as "%XY". */
  function Percent(bs: seq<Byte>): string
  {
    if bs == [] then ""
    else ['%', HexDigit(bs[0] as int / 16), HexDigit(bs[0] as int % 16)] + Percent(bs[1..])
  }

  function EncodeChar(c: char): string
  {
    if Unreserved(c) then [c] else Percent(Utf8(c))
  }

  /** `encodeURIComponent(s)` */
  function EncodeComponent(s: string): string
  {
    if s == [] then "" else EncodeChar(s[0]) + EncodeComponent(s[1..])
  }

  // ---------------------------------------------------------------------
  // decodeURIComponent

  /** The value of a hexadecimal digit of either case. */
  function HexValue(c: char): Option<int>
  {
    if '0' <= c <= '9' then Some(c as int - '0' as int)
    else if 'A' <= c <= 'F' then Some(c as int - 'A' as int + 10)
    else if 'a' <= c <= 'f' then Some(c as int - 'a' as int + 10)
    else None
  }

  /** The `n` bytes written as "%XY" at the start of `s`. */
  function Unpercent(s: string, n: nat): (r: Option<seq<Byte>>)
    ensures r.Some? ==> |r.value| == n && 3 * n <= |s|
  {
    if n == 0 then Some([])
    else if |s| < 3 || s[0] != '%' || HexValue(s[1]).None? || HexValue(s[2]).None? then None
    else
      match Unpercent(s[3..], n - 1)
      case None => None
      case Some(rest) => Some([(HexValue(s[1]).value * 16 + HexValue(s[2]).value) as Byte] + rest)
  }

  /** How many bytes a UTF-8 sequence with this leading byte has; 0 for a
      byte no sequence starts with. */
  function Utf8Length(b: Byte): nat
  {
    if b < 0x80 then 1
    else if 0xC2 <= b < 0xE0 then 2
    else if 0xE0 <= b < 0xF0 then 3
    else if 0xF0 <= b < 0xF5 then 4
    else 0
  }

  predicate Continuation(b: Byte)
  {
    0x80 <= b < 0xC0
  }

  /** The code point a well-formed UTF-8 sequence stands for; none for an
      overlong form, a surrogate or a value past U+10FFFF. */
  function Utf8Decode(bs: seq<Byte>): Option<char>
  {
    if |bs| == 1 && bs[0] < 0x80 then Some(bs[0] as int as char)
    else if |bs| == 2 && Continuation(bs[1]) then
      var n := (bs[0] as int - 0xC0) * 64 + (bs[1] as int - 0x80);
      if 0x80 <= n < 0x800 then Some(n as char) else None
    else if |bs| == 3 && Continuation(bs[1]) && Continuation(bs[2]) then
      var n := ((bs[0] as int - 0xE0) * 64 + (bs[1] as int - 0x80)) * 64 + (bs[2] as int - 0x80);
      if 0x800 <= n < 0xD800 || 0xE000 <= n < 0x10000 then Some(n as char) else None
    else if |bs| == 4 && Continuation(bs[1]) && Continuation(bs[2]) && Continuation(bs[3]) then
      var n := (((bs[0] as int - 0xF0) * 64 + (bs[1] as int - 0x80)) * 64 + (bs[2] as int - 0x80)) * 64
               + (bs[3] as int - 0x80);
      if 0x10000 <= n < 0x110000 then Some(n as char) else None
    else None
  }

  /** `decodeURIComponent(s)`: None where it throws a URIError. */
  function DecodeComponent(s: string): Option<string>
    decreases |s|
  {
    if s == [] then Some("")
    else if s[0] != '%' then
      match DecodeComponent(s[1..])
      case None => None
      case Some(t) => Some([s[0]] + t)
    else
      match Unpercent(s, 1)
      case None => None
      case Some(lead) =>
        var n := Utf8Length(lead[0]);
        if n == 0 then None
        else
          match Unpercent(s, n)
          case None => None
          case Some(bs) =>
            match Utf8Decode(bs)
            case None => None
            case Some(c) =>
              match DecodeComponent(s[3 * n..])
              case None => None
              case Some(t) => Some([c] + t)
  }

  // ---------------------------------------------------------------------
  // encodeFilePath

  /** `encodeFilePath(path)`: each "/"-separated segment through
      `encodeURIComponent`, the separators kept. */
  function EncodeFilePath(path: string): string
  {
    Join(EncodeAll(Split(path, '/')), '/')
  }

  /** `segments.map(encodeURIComponent)`: each element holds no '/' and
      decodes back to its segment. */
  function EncodeAll(segs: seq<string>): (r: seq<string>)
    ensures |r| == |segs|
    ensures forall i :: 0 <= i < |segs| ==> '/' !in r[i] && DecodeComponent(r[i]) == Some(segs[i])
  {
    EncodeEach(segs);
    seq(|segs|, i requires 0 <= i < |segs| => EncodeComponent(segs[i]))
  }

  lemma EncodeEach(segs: seq<string>)
    ensures forall i :: 0 <= i < |segs| ==>
      '/' !in EncodeComponent(segs[i]) && DecodeComponent(EncodeComponent(segs[i])) == Some(segs[i])
  {
    forall i | 0 <= i < |segs|
      ensures '/' !in EncodeComponent(segs[i]) && DecodeComponent(EncodeComponent(segs[i])) == Some(segs[i])
    {
      EncodedChars(segs[i]);
      DecodeEncode(segs[i]);
    }
  }

  // ---------------------------------------------------------------------
  // round trip

  lemma HexRoundTrip(d: int)
    requires 0 <= d < 16
    ensures HexValue(HexDigit(d)) == Some(d)
  {
  }

  /** A UTF-8 sequence begins with a byte announcing its length, and
      decodes back to the code point. */
  lemma Utf8RoundTrip(c: char)
    ensures 1 <= |Utf8(c)| <= 4
    ensures Utf8Length(Utf8(c)[0]) == |Utf8(c)|
    ensures Utf8Decode(Utf8(c)) == Some(c)
  {
    var n := c as int;
    if 0x80 <= n < 0x800 {
      Utf8Two(c);
    } else if 0x800 <= n < 0x10000 {
      Utf8Three(c);
    } else if 0x10000 <= n {
      Utf8Four(c);
    }
  }

  lemma Utf8Two(c: char)
    requires 0x80 <= c as int < 0x800
    ensures Utf8Length(Utf8(c)[0]) == 2 && Utf8Decode(Utf8(c)) == Some(c)
  {
    var n := c as int;
    assert n == n / 64 * 64 + n % 64;
  }

  lemma Utf8Three(c: char)
    requires 0x800 <= c as int < 0x10000
    ensures Utf8Length(Utf8(c)[0]) == 3 && Utf8Decode(Utf8(c)) == Some(c)
  {
    var n := c as int;
    assert n / 64 == n / 4096 * 64 + n / 64 % 64;
    assert n == n / 64 * 64 + n % 64;
  }

  lemma Utf8Four(c: char)
    requires 0x10000 <= c as int
    ensures Utf8Length(Utf8(c)[0]) == 4 && Utf8Decode(Utf8(c)) == Some(c)
  {
    var n := c as int;
    assert n / 4096 == n / 262144 * 64 + n / 4096 % 64;
    assert n / 64 == n / 4096 * 64 + n / 64 % 64;
    assert n == n / 64 * 64 + n % 64;
  }

  lemma {:induction false} PercentLength(bs: seq<Byte>)
    ensures |Percent(bs)| == 3 * |bs|
  {
    if bs != [] {
      PercentLength(bs[1..]);
    }
  }

  /** Reading back the bytes written as "%XY". */
  lemma {:induction false} UnpercentPercent(bs: seq<Byte>, rest: string, k: nat)
    requires k <= |bs|
    ensures Unpercent(Percent(bs) + rest, k) == Some(bs[..k])
  {
    if k > 0 {
      var s := Percent(bs) + rest;
      var b := bs[0] as int;
      HexRoundTrip(b / 16);
      HexRoundTrip(b % 16);
      assert s[..3] == ['%', HexDigit(b / 16), HexDigit(b % 16)];
      assert s[3..] == Percent(bs[1..]) + rest;
      UnpercentPercent(bs[1..], rest, k - 1);
      assert [bs[0]] + bs[1..][..k - 1] == bs[..k];
    }
  }

  /** Decoding the encoding of one character, then the rest. */
  lemma DecodeCharThen(c: char, rest: string)
    ensures DecodeComponent(EncodeChar(c) + rest) ==
      match DecodeComponent(rest)
      case None => None
      case Some(t) => Some([c] + t)
  {
    var s := EncodeChar(c) + rest;
    if Unreserved(c) {
      assert s[1..] == rest;
    } else {
      var bs := Utf8(c);
      Utf8RoundTrip(c);
      PercentLength(bs);
      UnpercentPercent(bs, rest, 1);
      UnpercentPercent(bs, rest, |bs|);
      assert bs[..|bs|] == bs;
      assert s[3 * |bs|..] == rest;
    }
  }

  /** `decodeURIComponent(encodeURIComponent(s)) === s`. */
  lemma {:induction false} DecodeEncode(s: string)
    ensures DecodeComponent(EncodeComponent(s)) == Some(s)
  {
    if s != [] {
      DecodeEncode(s[1..]);
      DecodeCharThen(s[0], EncodeComponent(s[1..]));
      assert [s[0]] + s[1..] == s;
    }
  }

  // ---------------------------------------------------------------------
  // what an encoded segment holds

  /** A character an encoding can hold: an unreserved one, "%" or a
      hexadecimal digit. */
  predicate EncodedChar(c: char)
  {
    Unreserved(c) || c == '%' || HexValue(c).Some?
  }

  lemma {:induction false} PercentChars(bs: seq<Byte>)
    ensures forall c :: c in Percent(bs) ==> c == '%' || ('0' <= c <= '9') || ('A' <= c <= 'F')
  {
    if bs != [] {
      PercentChars(bs[1..]);
    }
  }

  /** Only unreserved characters, "%" and hexadecimal digits come out; in
      particular no "/", space or "#". */
  lemma {:induction false} EncodedChars(s: string)
    ensures forall c :: c in EncodeComponent(s) ==> EncodedChar(c)
    ensures '/' !in EncodeComponent(s) && ' ' !in EncodeComponent(s) && '#' !in EncodeComponent(s)
  {
    if s != [] {
      EncodedChars(s[1..]);
      PercentChars(Utf8(s[0]));
    }
  }

  /** A segment is returned as it is exactly when it holds only unreserved
      characters; otherwise the encoding is longer. */
  lemma {:induction false} EncodeUnchanged(s: string)
    ensures |EncodeComponent(s)| >= |s|
    ensures EncodeComponent(s) == s <==> forall c :: c in s ==> Unreserved(c)
  {
    if s != [] {
      EncodeUnchanged(s[1..]);
      if !Unreserved(s[0]) {
        Utf8RoundTrip(s[0]);
        PercentLength(Utf8(s[0]));
        assert |EncodeComponent(s)| > |s|;
      } else {
        assert s == [s[0]] + s[1..];
        if EncodeComponent(s) == s {
          assert EncodeComponent(s[1..]) == EncodeComponent(s)[1..];
        }
      }
    }
  }

  // ---------------------------------------------------------------------
  // encodeFilePath: separators and segments

  /** The encoded path has the input's segments, each encoded: the same
      number of "/", and segment i of the output is the encoding of
      segment i of the input, which decodes back to it. */
  lemma EncodeFilePathSegments(path: string)
    ensures Split(EncodeFilePath(path), '/') == EncodeAll(Split(path, '/'))
    ensures Count(EncodeFilePath(path), '/') == Count(path, '/')
    ensures forall i :: 0 <= i < |Split(path, '/')| ==>
      DecodeComponent(Split(EncodeFilePath(path), '/')[i]) == Some(Split(path, '/')[i])
  {
    var segs := Split(path, '/');
    var enc := EncodeAll(segs);
    SplitJoin(enc, '/');
    JoinCount(enc, '/');
    JoinSplit(path, '/');
    JoinCount(segs, '/');
  }

  /** Decoding each segment of the encoded path and joining them again
      gives back the path. */
  lemma EncodeFilePathRoundTrip(path: string)
    ensures DecodeFilePath(EncodeFilePath(path)) == Some(path)
  {
    var segs := Split(path, '/');
    EncodeFilePathSegments(path);
    DecodeAllEncoded(segs);
    JoinSplit(path, '/');
  }

  /** Every segment through `decodeURIComponent`, the separators kept. */
  function DecodeFilePath(s: string): Option<string>
  {
    match DecodeAll(Split(s, '/'))
    case None => None
    case Some(segs) => Some(Join(segs, '/'))
  }

  function DecodeAll(segs: seq<string>): Option<seq<string>>
  {
    if segs == [] then Some([])
    else
      match DecodeComponent(segs[0])
      case None => None
      case Some(d) =>
        match DecodeAll(segs[1..])
        case None => None
        case Some(ds) => Some([d] + ds)
  }

  lemma {:induction false} DecodeAllEncoded(segs: seq<string>)
    ensures DecodeAll(EncodeAll(segs)) == Some(segs)
  {
    if segs != [] {
      var enc := EncodeAll(segs);
      assert enc[1..] == EncodeAll(segs[1..]);
      DecodeAllEncoded(segs[1..]);
      assert [segs[0]] + segs[1..] == segs;
    }
  }

  // ---------------------------------------------------------------------
  // formatSize

  const KB: nat := 1024
  const MB: nat := 1024 * 1024
  const GB: nat := 1024 * 1024 * 1024

  function DigitChar(d: int): char
    requires 0 <= d < 10
  {
    ('0' as int + d) as char
  }

  /** `String(n)` for a whole number: its decimal digits. */
  function Decimal(n: nat): (r: string)
  {
    if n < 10 then [DigitChar(n)] else Decimal(n / 10) + [DigitChar(n % 10)]
  }

  /** The value of a string of decimal digits. */
  function DigitsValue(s: string): int
  {
    if s == [] then 0 else DigitsValue(s[..|s| - 1]) * 10 + (s[|s| - 1] as int - '0' as int)
  }

  /** `x.toFixed(1)` for x = n / d: ten times x rounded to the nearest
      whole number, the larger one on a tie. */
  function Tenths(n: nat, d: nat): nat
    requires d > 0
  {
    (20 * n + d) / (2 * d)
  }

  function Fixed1(tenths: nat): string
  {
    Decimal(tenths / 10) + "." + [DigitChar(tenths % 10)]
  }

  /** `formatSize(bytes)` */
  function FormatSize(bytes: nat): string
  {
    if bytes < KB then Decimal(bytes) + " B"
    else if bytes < MB then Fixed1(Tenths(bytes, KB)) + " KB"
    else if bytes < GB then Fixed1(Tenths(bytes, MB)) + " MB"
    else Fixed1(Tenths(bytes, GB)) + " GB"
  }

  predicate EndsWith(s: string, suffix: string)
  {
    |suffix| <= |s| && s[|s| - |suffix|..] == suffix
  }

  /** The digits read back as the number. */
  lemma {:induction false} DecimalRoundTrip(n: nat)
    ensures |Decimal(n)| >= 1
    ensures forall c :: c in Decimal(n) ==> '0' <= c <= '9'
    ensures DigitsValue(Decimal(n)) == n
  {
    if n >= 10 {
      DecimalRoundTrip(n / 10);
      var s := Decimal(n);
      assert s[..|s| - 1] == Decimal(n / 10);
    }
  }

  /** The tenths shown are the nearest to ten times n / d. */
  lemma TenthsNearest(n: nat, d: nat)
    requires d > 0
    ensures 2 * d * Tenths(n, d) <= 20 * n + d < 2 * d * Tenths(n, d) + 2 * d
  {
  }

  /** Below 1024 the size is the whole number of bytes and " B". */
  lemma FormatSizeBytes(bytes: nat)
    requires bytes < KB
    ensures DigitsValue(FormatSize(bytes)[..|FormatSize(bytes)| - 2]) == bytes
    ensures EndsWith(FormatSize(bytes), " B")
  {
    DecimalRoundTrip(bytes);
    var s := FormatSize(bytes);
    assert s[..|s| - 2] == Decimal(bytes);
  }

  /** The one-decimal text is the whole part's digits, a point and the
      tenths digit: it reads back as the number of tenths. */
  lemma Fixed1RoundTrip(tenths: nat)
    ensures var s := Fixed1(tenths);
      |s| >= 3 && s[|s| - 2] == '.' && '0' <= s[|s| - 1] <= '9' &&
      10 * DigitsValue(s[..|s| - 2]) + (s[|s| - 1] as int - '0' as int) == tenths
  {
    DecimalRoundTrip(tenths / 10);
    var s := Fixed1(tenths);
    assert s[..|s| - 2] == Decimal(tenths / 10);
  }

  /** From 1 KiB on, the text before the unit is a one-decimal number that
      reads back as the size in that unit, rounded to the nearest tenth. */
  lemma FormatSizeScaled(bytes: nat)
    requires bytes >= KB
    ensures var s := FormatSize(bytes);
      var unit := if bytes < MB then KB else if bytes < GB then MB else GB;
      var num := s[..|s| - 3];
      |s| >= 6 && num[|num| - 2] == '.' && '0' <= num[|num| - 1] <= '9' &&
      10 * DigitsValue(num[..|num| - 2]) + (num[|num| - 1] as int - '0' as int) == Tenths(bytes, unit)
  {
    var s := FormatSize(bytes);
    var unit := if bytes < MB then KB else if bytes < GB then MB else GB;
    var text := Fixed1(Tenths(bytes, unit));
    Fixed1RoundTrip(Tenths(bytes, unit));
    assert s[..|s| - 3] == text;
  }

  /** Exactly one unit is chosen: " B" below 1 KiB, " KB" below 1 MiB,
      " MB" below 1 GiB and " GB" from there on. */
  lemma FormatSizeUnit(bytes: nat)
    ensures EndsWith(FormatSize(bytes), " B") <==> bytes < KB
    ensures EndsWith(FormatSize(bytes), " KB") <==> KB <= bytes < MB
    ensures EndsWith(FormatSize(bytes), " MB") <==> MB <= bytes < GB
    ensures EndsWith(FormatSize(bytes), " GB") <==> GB <= bytes
  {
    var s := FormatSize(bytes);
    if bytes < KB {
      DecimalRoundTrip(bytes);
      var num := Decimal(bytes);
      assert s == num + " B";
      assert s[|s| - 2] == ' ';
      assert s[|s| - 1] == 'B';
      if |s| >= 3 {
        assert s[|s| - 3] == num[|num| - 1];
        assert s[|s| - 3..] != " KB" && s[|s| - 3..] != " MB" && s[|s| - 3..] != " GB";
      }
    } else {
      var unit := if bytes < MB then " KB" else if bytes < GB then " MB" else " GB";
      var num := Fixed1(if bytes < MB then Tenths(bytes, KB) else if bytes < GB then Tenths(bytes, MB) else Tenths(bytes, GB));
      assert s == num + unit;
      assert s[|s| - 3..] == unit;
      assert s[|s| - 2..] == unit[1..];
    }
  }

  /** The rounding can show the next unit's threshold in the smaller unit:
      1048575 bytes read "1024.0 KB". */
  lemma RoundsUpToThreshold()
    ensures FormatSize(MB - 1) == "1024.0 KB"
  {
    assert Tenths(MB - 1, KB) == 10240;
    assert Decimal(1024) == "1024";
  }
}
