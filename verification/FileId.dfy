/**
  Cache file names. A file is stored under a path printed from its description, and
  the scanner and the cleaner parse that name back. Printing and parsing are shown to
  undo each other, with the exact condition under which they do.
 */
module FileId {
  import opened Common

  type Hash = h: seq<Byte> | |h| == 20 witness seq(20, _ => 0)

  /** Digests are taken by an arbitrary function. */
  type Sha1 = seq<Byte> -> Hash

  const U32_LIMIT: nat := 0x1_0000_0000
  type U32 = n: nat | n < U32_LIMIT

  datatype FileType = Jpeg | Png | Gif | Mp4 | Webm | Webp | Avif | Jpegxl | Other(ext: string)

  datatype CacheFileInfo = CacheFileInfo(hash: Hash, size: U32, xres: U32, yres: U32, fileType: FileType)

  /** A path below the cache directory: two directory levels and a file name. */
  datatype Path = Path(l1: string, l2: string, name: string)

  // ------------------------------------------------------------------ digits

  function Digit(d: nat): char
    requires d < 10
  {
    "0123456789"[d]
  }

  predicate IsDigit(c: char) {
    '0' <= c <= '9'
  }

  function DigitValue(c: char): (d: nat)
    requires IsDigit(c)
    ensures d < 10
  {
    c as int - '0' as int
  }

  /** Decimal notation without leading zeros. */
  function Decimal(n: nat): (s: string)
    ensures s != [] && (forall c :: c in s ==> IsDigit(c)) && (n > 0 ==> s[0] != '0')
  {
    if n < 10 then [Digit(n)] else Decimal(n / 10) + [Digit(n % 10)]
  }

  function Value(s: string): nat
    requires forall c :: c in s ==> IsDigit(c)
  {
    if s == [] then 0 else 10 * Value(s[..|s| - 1]) + DigitValue(s[|s| - 1])
  }

  /** `str::parse::<u32>`: an optional plus sign, then at least one digit, within 32 bits. */
  function ParseU32(s: string): Option<U32> {
    var digits := if s != [] && s[0] == '+' then s[1..] else s;
    if digits != [] && (forall c :: c in digits ==> IsDigit(c)) && Value(digits) < U32_LIMIT
    then Some(Value(digits)) else None
  }

  lemma {:induction false} ValueOfDecimal(n: nat)
    ensures Value(Decimal(n)) == n
  {
    if n >= 10 {
      ValueOfDecimal(n / 10);
      var s := Decimal(n);
      assert s[..|s| - 1] == Decimal(n / 10);
    } else {
      assert Decimal(n)[..0] == [];
    }
  }

  lemma ParseOfDecimal(n: U32)
    ensures ParseU32(Decimal(n)) == Some(n)
  {
    ValueOfDecimal(n);
    assert Decimal(n)[0] in Decimal(n);
  }

  function Zeros(k: nat): string {
    seq(k, _ => '0')
  }

  lemma DecimalStep(v: nat, c: char)
    requires IsDigit(c)
    ensures Decimal(DigitValue(c)) == [c] && (v > 0 ==> Decimal(10 * v + DigitValue(c)) == Decimal(v) + [c])
  {
    assert Digit(DigitValue(c)) == c;
  }

  /** One more digit: another zero as long as there are only zeros. */
  lemma SpellStep(init: string, c: char, k: nat, v: nat)
    requires IsDigit(c) && init == Zeros(k) + Decimal(v)
    ensures init + [c] == Zeros(if v == 0 then k + 1 else k) + Decimal(10 * v + DigitValue(c))
  {
    DecimalStep(v, c);
    if v == 0 {
      assert Decimal(0) == ['0'] && Zeros(k) + ['0'] == Zeros(k + 1);
    } else {
      assert Zeros(k) + Decimal(v) + [c] == Zeros(k) + (Decimal(v) + [c]);
    }
  }

  /** A sequence of digits is zeros and then the decimal notation of its value. */
  lemma {:induction false} DigitsSpell(s: string) returns (k: nat)
    requires s != [] && forall c :: c in s ==> IsDigit(c)
    ensures s == Zeros(k) + Decimal(Value(s))
  {
    hide Decimal, Zeros, Value, DigitValue, IsDigit;
    var init, last := s[..|s| - 1], s[|s| - 1];
    ValueStep(s);
    if init == [] {
      k := 0;
      OneDigit(last);
    } else {
      var zeros := DigitsSpell(init);
      SpellStep(init, last, zeros, Value(init));
      k := if Value(init) == 0 then zeros + 1 else zeros;
    }
  }

  lemma ValueStep(s: string)
    requires s != [] && forall c :: c in s ==> IsDigit(c)
    ensures var init, last := s[..|s| - 1], s[|s| - 1];
            && s == init + [last] && IsDigit(last) && (forall c :: c in init ==> IsDigit(c))
            && Value(s) == 10 * Value(init) + DigitValue(last) && (init == [] ==> Value(init) == 0 && s == [last])
  {
  }

  lemma OneDigit(c: char)
    requires IsDigit(c)
    ensures [c] == Zeros(0) + Decimal(DigitValue(c))
  {
    DecimalStep(0, c);
    assert Zeros(0) == [];
  }

  lemma {:induction false} ValueOfZeros(k: nat, s: string)
    requires forall c :: c in s ==> IsDigit(c)
    ensures (forall c :: c in Zeros(k) + s ==> IsDigit(c)) && Value(Zeros(k) + s) == Value(s)
    decreases |s| + k
  {
    var all := Zeros(k) + s;
    if s != [] {
      var init := s[..|s| - 1];
      ValueOfZeros(k, init);
      assert all[..|all| - 1] == Zeros(k) + init && all[|all| - 1] == s[|s| - 1];
    } else if k > 0 {
      ValueOfZeros(k - 1, s);
      assert all[..|all| - 1] == Zeros(k - 1) + s && all[|all| - 1] == '0';
    }
  }

  /** A spelling of `n`: an optional plus sign, any number of zeros, and its decimal notation. */
  ghost predicate NumberText(s: string, n: nat) {
    exists k: nat :: s == Zeros(k) + Decimal(n) || s == "+" + (Zeros(k) + Decimal(n))
  }

  /** Exactly the spellings of a 32-bit number are read as it. */
  lemma ParseU32Iff(s: string, n: nat)
    ensures ParseU32(s).Some? && ParseU32(s).value == n <==> NumberText(s, n) && n < 4_294_967_296
  {
    if ParseU32(s).Some? && ParseU32(s).value == n {
      var digits := if s[0] == '+' then s[1..] else s;
      var k := DigitsSpell(digits);
      assert s == digits || s == "+" + digits;
    }
    if k: nat :| s == Zeros(k) + Decimal(n) || s == "+" + (Zeros(k) + Decimal(n)) {
      var digits := Zeros(k) + Decimal(n);
      ValueOfZeros(k, Decimal(n));
      ValueOfDecimal(n);
      assert digits[0] in digits;
      assert s != digits ==> s[1..] == digits;
    }
  }

  // --------------------------------------------------------------------- hex

  function HexDigit(d: nat): char
    requires d < 16
  {
    "0123456789abcdef"[d]
  }

  /** Both letter cases are read. */
  function HexValue(c: char): (d: Option<nat>)
    ensures d.Some? ==> d.value < 16
  {
    if '0' <= c <= '9' then Some(c as int - '0' as int)
    else if 'a' <= c <= 'f' then Some(c as int - 'a' as int + 10)
    else if 'A' <= c <= 'F' then Some(c as int - 'A' as int + 10)
    else None
  }

  function HexEncode(bytes: seq<Byte>): (s: string)
    ensures |s| == 2 * |bytes| && forall c :: c in s ==> IsDigit(c) || 'a' <= c <= 'f'
  {
    if bytes == [] then []
    else [HexDigit(bytes[0] / 16), HexDigit(bytes[0] % 16)] + HexEncode(bytes[1..])
  }

  function HexDecode(s: string): (bytes: Option<seq<Byte>>)
    ensures bytes.Some? ==> |s| == 2 * |bytes.value|
  {
    if s == [] then Some([])
    else if |s| == 1 then None
    else
      var hi, lo, rest := HexValue(s[0]), HexValue(s[1]), HexDecode(s[2..]);
      if hi.Some? && lo.Some? && rest.Some? then Some([16 * hi.value + lo.value] + rest.value) else None
  }

  /** Decoding into a 20-byte array; a leading `0x` is skipped. */
  function DecodeHash(s: string): Option<Hash> {
    var digits := if |s| >= 2 && s[..2] == "0x" then s[2..] else s;
    var bytes := HexDecode(digits);
    if bytes.Some? && |bytes.value| == 20 then Some(bytes.value) else None
  }

  lemma HexDigitValue(d: nat)
    requires d < 16
    ensures HexValue(HexDigit(d)) == Some(d)
    ensures HexDigit(d) != 'x' && HexDigit(d) != '-' && HexDigit(d) != '/'
  {
  }

  lemma {:induction false} DecodeOfEncode(bytes: seq<Byte>)
    ensures HexDecode(HexEncode(bytes)) == Some(bytes)
    ensures 'x' !in HexEncode(bytes) && '-' !in HexEncode(bytes) && '/' !in HexEncode(bytes)
  {
    hide HexDigit, HexValue;
    if bytes != [] {
      DecodeOfEncode(bytes[1..]);
      HexDigitValue(bytes[0] / 16);
      HexDigitValue(bytes[0] % 16);
      assert HexEncode(bytes)[2..] == HexEncode(bytes[1..]);
      assert bytes == [16 * (bytes[0] / 16) + bytes[0] % 16] + bytes[1..];
    }
  }

  lemma DecodeHashOfEncode(hash: Hash)
    ensures DecodeHash(HexEncode(hash)) == Some(hash)
    ensures '-' !in HexEncode(hash) && '/' !in HexEncode(hash)
  {
    DecodeOfEncode(hash);
    var s := HexEncode(hash);
    assert s[1] in s;
    assert s[..2] != "0x" by {
      assert s[..2][1] == s[1] && "0x"[1] == 'x';
    }
  }

  function LowerDigit(c: char): char {
    if 'A' <= c <= 'F' then c - 'A' + 'a' else c
  }

  function Lower(s: string): (t: string)
    ensures |t| == |s|
  {
    seq(|s|, i requires 0 <= i < |s| => LowerDigit(s[i]))
  }

  /** A spelling of a digest: its hex digits in any letter case, after an optional `0x`. */
  ghost predicate HashText(s: string, hash: Hash) {
    Lower(s) == HexEncode(hash) || (|s| >= 2 && s[..2] == "0x" && Lower(s[2..]) == HexEncode(hash))
  }

  lemma HexValueIff(c: char, d: nat)
    requires d < 16
    ensures HexValue(c) == Some(d) <==> LowerDigit(c) == HexDigit(d)
  {
  }

  lemma {:induction false} HexDecodeIff(s: string, bytes: seq<Byte>)
    ensures HexDecode(s) == Some(bytes) <==> Lower(s) == HexEncode(bytes)
    decreases |s|
  {
    if |s| < 2 || bytes == [] {
      assert |Lower(s)| == |s| && |HexEncode(bytes)| == 2 * |bytes|;
      assert s == [] ==> Lower(s) == [];
    } else {
      var b, rest := bytes[0], bytes[1..];
      HexDecodeIff(s[2..], rest);
      HexValueIff(s[0], b / 16);
      HexValueIff(s[1], b % 16);
      HexDecodeStep(s, bytes);
      var low, hex := Lower(s), HexEncode(bytes);
      assert low == [LowerDigit(s[0]), LowerDigit(s[1])] + Lower(s[2..]);
      assert hex == [HexDigit(b / 16), HexDigit(b % 16)] + HexEncode(rest);
      assert low == hex <==> low[0] == hex[0] && low[1] == hex[1] && low[2..] == hex[2..] by {
        assert low == [low[0], low[1]] + low[2..] && hex == [hex[0], hex[1]] + hex[2..];
      }
    }
  }

  lemma HexDecodeStep(s: string, bytes: seq<Byte>)
    requires |s| >= 2 && bytes != []
    ensures HexDecode(s) == Some(bytes) <==>
            && HexValue(s[0]) == Some(bytes[0] / 16) && HexValue(s[1]) == Some(bytes[0] % 16)
            && HexDecode(s[2..]) == Some(bytes[1..])
  {
    hide HexValue;
    var hi, lo, rest := HexValue(s[0]), HexValue(s[1]), HexDecode(s[2..]);
    assert bytes == [bytes[0]] + bytes[1..];
    if hi.Some? && lo.Some? {
      Nibbles(bytes[0], hi.value, lo.value);
      if rest.Some? {
        assert ([16 * hi.value + lo.value] + rest.value)[1..] == rest.value;
      }
    }
  }

  lemma Nibbles(b: Byte, hi: nat, lo: nat)
    requires hi < 16 && lo < 16
    ensures b == 16 * hi + lo <==> b / 16 == hi && b % 16 == lo
  {
  }

  /** Exactly the spellings of a digest are read as it. */
  lemma DecodeHashIff(s: string, hash: Hash)
    ensures DecodeHash(s) == Some(hash) <==> HashText(s, hash)
  {
    hide HexDecode, HexEncode;
    HexDecodeIff(s, hash);
    if |s| >= 2 && s[..2] == "0x" {
      HexDecodeIff(s[2..], hash);
      assert Lower(s)[1] == s[1] == s[..2][1] == 'x' && Lower(s)[1] in Lower(s);
    }
  }

  // --------------------------------------------------------------- file types

  function AsStr(t: FileType): string {
    match t
    case Jpeg => "jpg"
    case Png => "png"
    case Gif => "gif"
    case Mp4 => "mp4"
    case Webm => "wbm"
    case Webp => "wbp"
    case Avif => "avf"
    case Jpegxl => "jxl"
    case Other(ext) => ext
  }

  function FromStr(s: string): (t: FileType)
    ensures AsStr(t) == s
  {
    if s == "jpg" then Jpeg
    else if s == "png" then Png
    else if s == "gif" then Gif
    else if s == "mp4" then Mp4
    else if s == "wbm" then Webm
    else if s == "wbp" then Webp
    else if s == "avf" then Avif
    else if s == "jxl" then Jpegxl
    else Other(s)
  }

  /** A type a parsed name can carry: no dash, and no known extension spelled as `Other`. */
  predicate TypeOk(t: FileType) {
    '-' !in AsStr(t) && FromStr(AsStr(t)) == t
  }

  /**
    A type whose file name is one component of a path. A request id is percent-decoded, so a parsed type may
    hold a slash, and then the pushed name is several components (see `OneComponentIff`).
   */
  predicate Storable(t: FileType) {
    TypeOk(t) && '/' !in AsStr(t)
  }

  // --------------------------------------------------------------- splitting

  /** `str::split` at a character. */
  function Split(s: string, at: char): (parts: seq<string>)
    ensures |parts| >= 1
    ensures forall i :: 0 <= i < |parts| ==> at !in parts[i]
  {
    if s == [] then [[]]
    else
      var parts := Split(s[1..], at);
      if s[0] == at then [[]] + parts else [[s[0]] + parts[0]] + parts[1..]
  }

  lemma {:induction false} SplitWhole(s: string, at: char)
    requires at !in s
    ensures Split(s, at) == [s]
  {
    if s != [] {
      SplitWhole(s[1..], at);
      assert s == [s[0]] + s[1..];
    }
  }

  /** A first part with `c` put in front of it, or an empty part before it. */
  function Prepend(c: char, parts: seq<string>, at: char): seq<string>
    requires parts != []
  {
    if c == at then [[]] + parts else [[c] + parts[0]] + parts[1..]
  }

  lemma SplitStep(c: char, s: string, at: char)
    ensures Split([], at) == [[]] && Split([c] + s, at) == Prepend(c, Split(s, at), at)
  {
    assert ([c] + s)[1..] == s;
  }

  lemma {:induction false} SplitConcat(a: string, at: char, b: string)
    ensures Split(a + [at] + b, at) == Split(a, at) + Split(b, at)
  {
    hide Split;
    if a == [] {
      SplitStep(at, b, at);
      assert a + [at] + b == [at] + b;
    } else {
      var c, rest := a[0], a[1..];
      hide Prepend;
      SplitConcat(rest, at, b);
      SplitStep(c, rest + [at] + b, at);
      SplitStep(c, rest, at);
      assert a == [c] + rest && a + [at] + b == [c] + (rest + [at] + b);
    }
  }

  lemma SplitFirst(a: string, rest: string)
    requires '-' !in a
    ensures Split(a + "-" + rest, '-') == [a] + Split(rest, '-')
  {
    SplitConcat(a, '-', rest);
    SplitWhole(a, '-');
  }

  // ------------------------------------------------------- printing, parsing

  function FileName(info: CacheFileInfo): string {
    if info.xres > 0 then
      HexEncode(info.hash) + "-" + (Decimal(info.size) + "-" +
        (Decimal(info.xres) + "-" + (Decimal(info.yres) + "-" + AsStr(info.fileType))))
    else
      HexEncode(info.hash) + "-" + (Decimal(info.size) + "-" + AsStr(info.fileType))
  }

  function ToPath(info: CacheFileInfo): Path {
    var hash := HexEncode(info.hash);
    Path(hash[0..2], hash[2..4], FileName(info))
  }

  function StaticRange(info: CacheFileInfo): (range: string)
    ensures |range| == 4
  {
    HexEncode(info.hash[0..2])
  }

  /** The part at `i` as a number; `next()?` and `parse().ok()?` both give up with `None`. */
  function NumberAt(parts: seq<string>, i: nat): Option<U32> {
    if i < |parts| then ParseU32(parts[i]) else None
  }

  function FromFileId(id: string): Option<CacheFileInfo> {
    var parts := Split(id, '-');
    var noneRes := |parts| == 3;
    var hash := DecodeHash(parts[0]);
    var size := NumberAt(parts, 1);
    var xres := if noneRes then Some(0) else NumberAt(parts, 2);
    var yres := if noneRes then Some(0) else NumberAt(parts, 3);
    var last := if noneRes then 2 else 4;
    if hash.None? || size.None? || xres.None? || yres.None? || |parts| <= last then None
    else Some(CacheFileInfo(hash.value, size.value, xres.value, yres.value, FromStr(parts[last])))
  }

  /** What a name remembers: without a width the height is not printed. */
  function Remembered(info: CacheFileInfo): CacheFileInfo {
    if info.xres > 0 then info else info.(yres := 0)
  }

  predicate Canonical(info: CacheFileInfo) {
    (info.xres > 0 || info.yres == 0) && TypeOk(info.fileType)
  }

  lemma SplitOfFileName(info: CacheFileInfo)
    requires TypeOk(info.fileType)
    ensures var h, z, t := HexEncode(info.hash), Decimal(info.size), AsStr(info.fileType);
            Split(FileName(info), '-') ==
            if info.xres > 0 then [h, z, Decimal(info.xres), Decimal(info.yres), t] else [h, z, t]
  {
    hide Split;
    var h, z, t := HexEncode(info.hash), Decimal(info.size), AsStr(info.fileType);
    DecodeHashOfEncode(info.hash);
    SplitWhole(t, '-');
    if info.xres > 0 {
      var x, y := Decimal(info.xres), Decimal(info.yres);
      SplitFirst(y, t);
      SplitFirst(x, y + "-" + t);
      SplitFirst(z, x + "-" + (y + "-" + t));
      SplitFirst(h, z + "-" + (x + "-" + (y + "-" + t)));
    } else {
      SplitFirst(z, t);
      SplitFirst(h, z + "-" + t);
    }
  }

  /** Parsing a printed name gives back everything the name remembers. */
  lemma ParseOfPrint(info: CacheFileInfo)
    requires TypeOk(info.fileType)
    ensures FromFileId(FileName(info)) == Some(Remembered(info))
  {
    hide Split, ParseU32, DecodeHash, Decimal, HexEncode, FileName;
    SplitOfFileName(info);
    DecodeHashOfEncode(info.hash);
    ParseOfDecimal(info.size);
    ParseOfDecimal(info.xres);
    ParseOfDecimal(info.yres);
  }

  lemma ParsedTypeOk(id: string)
    ensures FromFileId(id).Some? ==> TypeOk(FromFileId(id).value.fileType)
  {
  }

  /** A description survives printing and parsing exactly when it is canonical. */
  lemma RoundTrip(info: CacheFileInfo)
    ensures FromFileId(FileName(info)) == Some(info) <==> Canonical(info)
  {
    ParsedTypeOk(FileName(info));
    if TypeOk(info.fileType) {
      ParseOfPrint(info);
    }
  }

  /**
    The accepted ids: three parts, or five and more of which the rest is ignored; the digest and the numbers in any
    of their spellings; and a type that is `Other` only if its text is not a known extension.
   */
  lemma AcceptedIff(id: string, info: CacheFileInfo)
    ensures FromFileId(id) == Some(info) <==>
            var parts, three := Split(id, '-'), |Split(id, '-')| == 3;
            && (three || |parts| >= 5)
            && HashText(parts[0], info.hash) && NumberText(parts[1], info.size)
            && (if three then info.xres == 0 && info.yres == 0
                else NumberText(parts[2], info.xres) && NumberText(parts[3], info.yres))
            && AsStr(info.fileType) == parts[if three then 2 else 4] && TypeOk(info.fileType)
  {
    var parts := Split(id, '-');
    hide Split, DecodeHash, ParseU32, HashText, NumberText;
    DecodeHashIff(parts[0], info.hash);
    if |parts| >= 3 {
      ParseU32Iff(parts[1], info.size);
    }
    if |parts| >= 5 {
      ParseU32Iff(parts[2], info.xres);
      ParseU32Iff(parts[3], info.yres);
    }
  }

  /** What the known extensions stand for. */
  lemma KnownTypes(info: CacheFileInfo)
    requires Canonical(info)
    ensures FromFileId(Stem(info) + "jpg") == Some(info.(fileType := Jpeg))
    ensures FromFileId(Stem(info) + "png") == Some(info.(fileType := Png))
    ensures FromFileId(Stem(info) + "gif") == Some(info.(fileType := Gif))
    ensures FromFileId(Stem(info) + "mp4") == Some(info.(fileType := Mp4))
    ensures FromFileId(Stem(info) + "wbm") == Some(info.(fileType := Webm))
    ensures FromFileId(Stem(info) + "wbp") == Some(info.(fileType := Webp))
    ensures FromFileId(Stem(info) + "avf") == Some(info.(fileType := Avif))
    ensures FromFileId(Stem(info) + "jxl") == Some(info.(fileType := Jpegxl))
  {
    hide FromFileId, FileName, Stem, TypeOk;
    KnownType(info, Jpeg);
    KnownType(info, Png);
    KnownType(info, Gif);
    KnownType(info, Mp4);
    KnownType(info, Webm);
    KnownType(info, Webp);
    KnownType(info, Avif);
    KnownType(info, Jpegxl);
  }

  lemma KnownType(info: CacheFileInfo, t: FileType)
    requires Canonical(info) && !t.Other?
    ensures FromFileId(Stem(info) + AsStr(t)) == Some(info.(fileType := t))
  {
    hide FromFileId, FileName, Stem;
    var known := info.(fileType := t);
    StemThenType(known);
    SameStem(known, info);
    ParseOfPrint(known);
  }

  /** Parsing then printing settles after one round, whatever id was accepted. */
  lemma PrintOfParseIdempotent(id: string)
    requires FromFileId(id).Some?
    ensures var name := FileName(FromFileId(id).value);
            FromFileId(name).Some? && FileName(FromFileId(name).value) == name
  {
    ParsedTypeOk(id);
    ParseOfPrint(FromFileId(id).value);
  }

  // ------------------------------------------------------------------- paths

  lemma {:induction false} EncodePrefix(bytes: seq<Byte>, n: nat)
    requires n <= |bytes|
    ensures HexEncode(bytes[..n]) == HexEncode(bytes)[..2 * n]
  {
    if n > 0 {
      EncodePrefix(bytes[1..], n - 1);
      assert bytes[..n][1..] == bytes[1..][..n - 1];
    }
  }

  /** The directory of a path is the one the cleaner derives from the static range. */
  lemma PathInStaticRange(info: CacheFileInfo)
    ensures ToPath(info).l1 == StaticRange(info)[0..2]
    ensures ToPath(info).l2 == StaticRange(info)[2..4]
    ensures ToPath(info).l1 + ToPath(info).l2 == StaticRange(info) == ToPath(info).name[..4]
  {
    EncodePrefix(info.hash, 2);
    assert info.hash[0..2] == info.hash[..2];
    var hash := HexEncode(info.hash);
    assert hash[0..2] == hash[..4][0..2];
    assert hash[2..4] == hash[..4][2..4];
    assert hash[0..2] + hash[2..4] == hash[..4];
  }

  // -------------------------------------------------------------- components

  /** The parts of a path that name something: `Path` ignores empty parts and `.`. */
  function Named(parts: seq<string>): seq<string> {
    if parts == [] then []
    else if parts[0] == "" || parts[0] == "." then Named(parts[1..])
    else [parts[0]] + Named(parts[1..])
  }

  /** What pushing `name` on a path adds to it: `/` inside the name separates components. */
  function Components(name: string): seq<string> {
    Named(Split(name, '/'))
  }

  /** Where a description is stored, component by component. */
  function Place(info: CacheFileInfo): seq<string> {
    [ToPath(info).l1, ToPath(info).l2] + Components(FileName(info))
  }

  lemma {:induction false} NamedConcat(a: seq<string>, b: seq<string>)
    ensures Named(a + b) == Named(a) + Named(b)
  {
    if a == [] {
      assert a + b == b;
    } else {
      NamedConcat(a[1..], b);
      assert (a + b)[1..] == a[1..] + b;
    }
  }

  lemma ComponentsConcat(a: string, b: string)
    ensures Components(a + "/" + b) == Components(a) + Components(b)
  {
    SplitConcat(a, '/', b);
    NamedConcat(Split(a, '/'), Split(b, '/'));
  }

  lemma {:induction false} NamedAreParts(parts: seq<string>)
    ensures forall i :: 0 <= i < |Named(parts)| ==> Named(parts)[i] in parts
  {
    if parts != [] {
      NamedAreParts(parts[1..]);
    }
  }

  lemma ComponentsHoldNoSlash(name: string)
    ensures forall i :: 0 <= i < |Components(name)| ==> '/' !in Components(name)[i]
  {
    NamedAreParts(Split(name, '/'));
  }

  /** Everything of a name before the type. */
  function Stem(info: CacheFileInfo): string {
    HexEncode(info.hash) + "-" + Decimal(info.size) + "-" +
    if info.xres > 0 then Decimal(info.xres) + "-" + Decimal(info.yres) + "-" else ""
  }

  lemma StemThenType(info: CacheFileInfo)
    ensures FileName(info) == Stem(info) + AsStr(info.fileType)
    ensures '/' !in Stem(info) && |Stem(info)| >= 2
  {
    DecodeHashOfEncode(info.hash);
    var h, z, t := HexEncode(info.hash), Decimal(info.size), AsStr(info.fileType);
    if info.xres > 0 {
      var x, y := Decimal(info.xres), Decimal(info.yres);
      Regroup(y, "-", "", t);
      Regroup(x + "-" + y, "-", "", t);
      assert x + "-" + (y + "-" + t) == x + "-" + y + "-" + t;
      var tail := x + "-" + y + "-";
      Regroup(h, z, tail, t);
    } else {
      Regroup(h, z, "", t);
    }
  }

  lemma Regroup(h: string, z: string, m: string, t: string)
    ensures h + "-" + (z + "-" + (m + t)) == h + "-" + z + "-" + m + t
  {
  }

  /** A file lands in its range directory, under its own name, exactly when its type holds no slash. */
  lemma OneComponentIff(info: CacheFileInfo)
    ensures Place(info) == [ToPath(info).l1, ToPath(info).l2, ToPath(info).name] <==>
            '/' !in AsStr(info.fileType)
  {
    var name := FileName(info);
    StemThenType(info);
    ComponentsHoldNoSlash(name);
    if Components(name) == [name] {
      assert Components(name)[0] == name;
    }
    if '/' !in AsStr(info.fileType) {
      SplitWhole(name, '/');
      assert Named([name]) == [name] + Named([name][1..]);
    } else {
      assert name[|Stem(info)|..] == AsStr(info.fileType);
      assert '/' in name;
      assert Place(info)[2..] == Components(name);
    }
  }

  /** Two storable descriptions are stored in one place exactly when their names remember the same thing. */
  lemma SamePathIff(a: CacheFileInfo, b: CacheFileInfo)
    requires Storable(a.fileType) && Storable(b.fileType)
    ensures Place(a) == Place(b) <==> Remembered(a) == Remembered(b)
    ensures ToPath(a) == ToPath(b) <==> Remembered(a) == Remembered(b)
  {
    ParseOfPrint(a);
    ParseOfPrint(b);
    OneComponentIff(a);
    OneComponentIff(b);
    assert Place(a)[2] == FileName(a) && Place(b)[2] == FileName(b);
    if Remembered(a) == Remembered(b) {
      assert FileName(a) == FileName(b);
    }
  }

  /** Distinct canonical descriptions are stored in distinct places, as long as neither type holds a slash. */
  lemma DistinctPaths(a: CacheFileInfo, b: CacheFileInfo)
    requires Canonical(a) && Canonical(b) && a != b
    requires '/' !in AsStr(a.fileType) && '/' !in AsStr(b.fileType)
    ensures Place(a) != Place(b)
  {
    SamePathIff(a, b);
  }

  lemma SlashRepeats(w: string, v: string)
    requires v == "" || v[0] == '/'
    ensures Components(w + "/" + v) == Components(w + v)
  {
    ComponentsConcat(w, v);
    assert Components("") == [];
    if v == "" {
      assert w + v == w;
    } else {
      var rest := v[1..];
      assert v == "" + "/" + rest && w + v == w + "/" + rest;
      ComponentsConcat(w, rest);
      ComponentsConcat("", rest);
    }
  }

  lemma SameStem(a: CacheFileInfo, b: CacheFileInfo)
    requires a == b.(fileType := a.fileType)
    ensures Stem(a) == Stem(b) && ToPath(a).l1 == ToPath(b).l1 && ToPath(a).l2 == ToPath(b).l2
  {
  }

  /**
    With a slash the law fails for every description: one more slash at the end of the type, or beside one that
    is there, is another canonical description stored in the same place.
   */
  lemma SlashedTwin(info: CacheFileInfo, u: string, v: string) returns (twin: CacheFileInfo)
    requires Canonical(info) && AsStr(info.fileType) == u + v && (v == "" || v[0] == '/')
    ensures twin == info.(fileType := Other(u + "/" + v))
    ensures Canonical(twin) && twin != info && Place(twin) == Place(info)
  {
    twin := info.(fileType := Other(u + "/" + v));
    hide Components, Stem, FileName, HexEncode, Decimal, ToPath;
    TwinType(info.fileType, u, v);
    var stem := Stem(info);
    StemThenType(info);
    StemThenType(twin);
    SameStem(info, twin);
    assert stem + (u + "/" + v) == stem + u + "/" + v && stem + (u + v) == stem + u + v;
    SlashRepeats(stem + u, v);
  }

  lemma DotRepeats(w: string, v: string)
    ensures Components(w + "/./" + v) == Components(w + "/" + v)
  {
    hide Components;
    ComponentsConcat(w, v);
    ComponentsConcat(w, "./" + v);
    ComponentsConcat(".", v);
    assert w + "/./" + v == w + "/" + ("./" + v) && "./" + v == "." + "/" + v;
    assert Components(".") == [] by {
      DotIsNothing();
    }
  }

  lemma DotIsNothing()
    ensures Components(".") == []
  {
    SplitWhole(".", '/');
    assert ["."][1..] == [];
  }

  /** So does a dot between two slashes. */
  lemma DottedTwin(info: CacheFileInfo, u: string, v: string) returns (twin: CacheFileInfo)
    requires Canonical(info) && AsStr(info.fileType) == u + "/" + v
    ensures twin == info.(fileType := Other(u + "/./" + v))
    ensures Canonical(twin) && twin != info && Place(twin) == Place(info)
  {
    twin := info.(fileType := Other(u + "/./" + v));
    hide Components, Stem, FileName, HexEncode, Decimal, ToPath;
    DottedType(info.fileType, u, v);
    var stem := Stem(info);
    StemThenType(info);
    StemThenType(twin);
    SameStem(info, twin);
    assert stem + (u + "/./" + v) == stem + u + "/./" + v && stem + (u + "/" + v) == stem + u + "/" + v;
    DotRepeats(stem + u, v);
  }

  lemma DottedType(t: FileType, u: string, v: string)
    requires TypeOk(t) && AsStr(t) == u + "/" + v
    ensures TypeOk(Other(u + "/./" + v)) && t != Other(u + "/./" + v)
  {
    assert (u + "/./" + v)[|u|] == '/';
    assert |u + "/./" + v| == |AsStr(t)| + 2;
    assert forall c :: c in u + "/./" + v ==> c in u + "/" + v || c == '.';
  }

  lemma TwinType(t: FileType, u: string, v: string)
    requires TypeOk(t) && AsStr(t) == u + v
    ensures TypeOk(Other(u + "/" + v)) && t != Other(u + "/" + v)
  {
    assert (u + "/" + v)[|u|] == '/';
    assert |u + "/" + v| == |AsStr(t)| + 1;
  }

  /** A listed path whose name parses to a description that is stored there. */
  predicate WellNamed(p: Path) {
    && '/' !in p.name
    && FromFileId(p.name).Some?
    && ToPath(FromFileId(p.name).value) == p
  }

  /**
    Every path written for a parsed description with a storable type is well named, so deleting the file that
    a listed name parses to deletes the listed file; no other path is.
   */
  lemma WrittenPathsAreWellNamed(info: CacheFileInfo)
    requires TypeOk(info.fileType)
    ensures WellNamed(ToPath(info)) <==> Storable(info.fileType)
    ensures FromFileId(ToPath(info).name) == Some(Remembered(info)) && ToPath(Remembered(info)) == ToPath(info)
  {
    ParseOfPrint(info);
    StemThenType(info);
    assert FileName(Remembered(info)) == FileName(info);
  }

  lemma ParsedStorable(p: Path)
    requires WellNamed(p)
    ensures Storable(FromFileId(p.name).value.fileType)
  {
    ParsedTypeOk(p.name);
    StemThenType(FromFileId(p.name).value);
  }
}
