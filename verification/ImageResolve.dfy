/**
 Image input resolution (crates/heramind-agent/src/image_utils.rs): two MIME sniffers, one on
 base64 text and one on raw bytes, and the ordered dispatcher of `resolve_image`. The base64
 codec is the standard one of section 4 of RFC 4648, with padding and strict decoding.
 */
module ImageResolve {
  import opened Basics

  type byte = n: int | 0 <= n < 256

  /** A six-bit value, or 64 for the padding character. */
  type code = n: int | 0 <= n <= 64

  const PAD: code := 64

  // ---------------------------------------------------------------------------
  // Base64: the alphabet
  // ---------------------------------------------------------------------------

  function Symbol(v: code): char {
    if v < 26 then 'A' + v as char
    else if v < 52 then 'a' + (v - 26) as char
    else if v < 62 then '0' + (v - 52) as char
    else if v == 62 then '+' else if v == 63 then '/' else '='
  }

  function CodeOf(c: char): Option<code> {
    if 'A' <= c <= 'Z' then Some((c - 'A') as int)
    else if 'a' <= c <= 'z' then Some((c - 'a') as int + 26)
    else if '0' <= c <= '9' then Some((c - '0') as int + 52)
    else if c == '+' then Some(62) else if c == '/' then Some(63) else if c == '=' then Some(64) else None
  }

  lemma CodeOfSymbol(v: code)
    ensures CodeOf(Symbol(v)) == Some(v)
  {
  }

  function Symbols(cs: seq<code>): (s: string)
    ensures |s| == |cs| && forall i :: 0 <= i < |cs| ==> s[i] == Symbol(cs[i])
  {
    seq(|cs|, i requires 0 <= i < |cs| => Symbol(cs[i]))
  }

  /** The codes of a text, unless some character is outside the alphabet. */
  function Codes(s: string): (r: Option<seq<code>>)
    ensures r.Some? ==> |r.value| == |s| && forall i :: 0 <= i < |s| ==> CodeOf(s[i]) == Some(r.value[i])
    ensures r.None? ==> exists i :: 0 <= i < |s| && CodeOf(s[i]) == None
  {
    if s == [] then Some([])
    else
      match Codes(s[..|s| - 1])
      case None => None
      case Some(front) =>
        match CodeOf(s[|s| - 1]) case None => None case Some(v) => Some(front + [v])
  }

  lemma CodesOfSymbols(cs: seq<code>)
    ensures Codes(Symbols(cs)) == Some(cs)
  {
    var s := Symbols(cs);
    forall i | 0 <= i < |cs| ensures CodeOf(s[i]) == Some(cs[i]) {
      CodeOfSymbol(cs[i]);
    }
    assert Codes(s).Some? && Codes(s).value == cs;
  }

  // ---------------------------------------------------------------------------
  // Base64: groups of three bytes
  // ---------------------------------------------------------------------------

  function S0(a: byte): code { a / 4 }
  function S1(a: byte, b: byte): code { a % 4 * 16 + b / 16 }
  function S2(b: byte, c: byte): code { b % 16 * 4 + c / 64 }
  function S3(c: byte): code { c % 64 }

  predicate Six(v: int) { 0 <= v < 64 }

  function B0(v: int, w: int): byte requires Six(v) && Six(w) { v * 4 + w / 16 }
  function B1(w: int, x: int): byte requires Six(w) && Six(x) { w % 16 * 16 + x / 4 }
  function B2(x: int, y: int): byte requires Six(x) && Six(y) { x % 4 * 64 + y }

  /** Encode bytes as codes; the last group is padded. */
  function EncodeCodes(bs: seq<byte>): (cs: seq<code>)
    ensures |cs| == (|bs| + 2) / 3 * 4
  {
    if |bs| == 0 then []
    else if |bs| == 1 then [S0(bs[0]), S1(bs[0], 0), PAD, PAD]
    else if |bs| == 2 then [S0(bs[0]), S1(bs[0], bs[1]), S2(bs[1], 0), PAD]
    else [S0(bs[0]), S1(bs[0], bs[1]), S2(bs[1], bs[2]), S3(bs[2])] + EncodeCodes(bs[3..])
  }

  /** Decode codes; padding may only close the last group, and its spare bits must be zero. */
  function DecodeCodes(cs: seq<code>): Option<seq<byte>> {
    if |cs| == 0 then Some([])
    else if |cs| < 4 || cs[0] == PAD || cs[1] == PAD then None
    else if cs[2] == PAD then
      if |cs| == 4 && cs[3] == PAD && cs[1] % 16 == 0 then Some([B0(cs[0], cs[1])]) else None
    else if cs[3] == PAD then
      if |cs| == 4 && cs[2] % 4 == 0
      then Some([B0(cs[0], cs[1]), B1(cs[1], cs[2])]) else None
    else
      match DecodeCodes(cs[4..])
      case None => None
      case Some(rest) =>
        Some([B0(cs[0], cs[1]), B1(cs[1], cs[2]), B2(cs[2], cs[3])] + rest)
  }

  lemma GroupSpells(a: byte, b: byte, c: byte)
    ensures Six(S0(a)) && Six(S1(a, b)) && Six(S2(b, c)) && Six(S3(c))
    ensures B0(S0(a), S1(a, b)) == a && B1(S1(a, b), S2(b, c)) == b && B2(S2(b, c), S3(c)) == c
    ensures S1(a, 0) % 16 == 0 && S2(b, 0) % 4 == 0
  {
  }

  lemma DecodeGroup(v: code, w: code, x: code, y: code, rest: seq<code>)
    requires Six(v) && Six(w) && Six(x) && Six(y) && DecodeCodes(rest).Some?
    ensures DecodeCodes([v, w, x, y] + rest) == Some([B0(v, w), B1(w, x), B2(x, y)] + DecodeCodes(rest).value)
  {
    var cs := [v, w, x, y] + rest;
    assert cs[4..] == rest;
  }

  lemma DecodePadded(v: code, w: code, x: code)
    requires Six(v) && Six(w)
    ensures w % 16 == 0 ==> DecodeCodes([v, w, PAD, PAD]) == Some([B0(v, w)])
    ensures Six(x) && x % 4 == 0 ==> DecodeCodes([v, w, x, PAD]) == Some([B0(v, w), B1(w, x)])
  {
  }

  lemma OneByte(a: byte)
    ensures DecodeCodes(EncodeCodes([a])) == Some([a])
  {
    hide S0, S1;
    OneSpells(a);
  }

  lemma OneSpells(a: byte)
    ensures Six(S0(a)) && Six(S1(a, 0)) && S1(a, 0) % 16 == 0 && B0(S0(a), S1(a, 0)) == a
  {
  }

  lemma TwoBytes(a: byte, b: byte)
    ensures DecodeCodes(EncodeCodes([a, b])) == Some([a, b])
  {
    assert EncodeCodes([a, b]) == [S0(a), S1(a, b), S2(b, 0), PAD];
    hide *;
    GroupSpells(a, b, 0);
    DecodePadded(S0(a), S1(a, b), S2(b, 0));
  }

  lemma ThreeBytes(a: byte, b: byte, c: byte, rest: seq<byte>)
    requires DecodeCodes(EncodeCodes(rest)) == Some(rest)
    ensures DecodeCodes(EncodeCodes([a, b, c] + rest)) == Some([a, b, c] + rest)
  {
    GroupSpells(a, b, c);
    EncodeGroup(a, b, c, rest);
    hide S0, S1, S2, S3, B0, B1, B2, EncodeCodes, DecodeCodes;
    DecodeGroup(S0(a), S1(a, b), S2(b, c), S3(c), EncodeCodes(rest));
  }

  lemma EncodeGroup(a: byte, b: byte, c: byte, rest: seq<byte>)
    ensures EncodeCodes([a, b, c] + rest) == [S0(a), S1(a, b), S2(b, c), S3(c)] + EncodeCodes(rest)
  {
    hide S0, S1, S2, S3;
    assert ([a, b, c] + rest)[3..] == rest;
  }

  lemma {:induction false} DecodeEncodeCodes(bs: seq<byte>)
    ensures DecodeCodes(EncodeCodes(bs)) == Some(bs)
  {
    if |bs| == 1 {
      assert bs == [bs[0]];
      OneByte(bs[0]);
    } else if |bs| == 2 {
      assert bs == [bs[0], bs[1]];
      TwoBytes(bs[0], bs[1]);
    } else if |bs| >= 3 {
      hide EncodeCodes, DecodeCodes;
      DecodeEncodeCodes(bs[3..]);
      ThreeBytes(bs[0], bs[1], bs[2], bs[3..]);
      assert bs == [bs[0], bs[1], bs[2]] + bs[3..];
    }
  }

  function Encode(bs: seq<byte>): string {
    Symbols(EncodeCodes(bs))
  }

  function Decode(s: string): Option<seq<byte>> {
    match Codes(s) case None => None case Some(cs) => DecodeCodes(cs)
  }

  /** Decoding undoes encoding, for every byte string. */
  lemma DecodeEncode(bs: seq<byte>)
    ensures Decode(Encode(bs)) == Some(bs)
  {
    CodesOfSymbols(EncodeCodes(bs));
    DecodeEncodeCodes(bs);
  }

  lemma CodesSpell(v: code, w: code, x: code, y: code)
    requires Six(v) && Six(w) && Six(x) && Six(y)
    ensures S0(B0(v, w)) == v && S1(B0(v, w), B1(w, x)) == w && S2(B1(w, x), B2(x, y)) == x && S3(B2(x, y)) == y
  {
  }

  lemma PaddedSpells(v: code, w: code, x: code)
    requires Six(v) && Six(w) && Six(x)
    ensures w % 16 == 0 ==> S0(B0(v, w)) == v && S1(B0(v, w), 0) == w
    ensures x % 4 == 0 ==> S0(B0(v, w)) == v && S1(B0(v, w), B1(w, x)) == w && S2(B1(w, x), 0) == x
  {
  }

  lemma {:induction false} EncodeDecodeCodes(cs: seq<code>)
    requires DecodeCodes(cs).Some?
    ensures EncodeCodes(DecodeCodes(cs).value) == cs
  {
    hide S0, S1, S2, S3, B0, B1, B2;
    if |cs| != 0 {
      if cs[2] == PAD {
        PaddedSpells(cs[0], cs[1], 0);
      } else if cs[3] == PAD {
        PaddedSpells(cs[0], cs[1], cs[2]);
      } else {
        EncodeDecodeCodes(cs[4..]);
        CodesSpell(cs[0], cs[1], cs[2], cs[3]);
        assert DecodeCodes(cs).value[3..] == DecodeCodes(cs[4..]).value;
      }
    }
  }

  lemma SymbolOfCode(c: char)
    ensures CodeOf(c).Some? ==> Symbol(CodeOf(c).value) == c
  {
  }

  /** Strict decoding accepts one text per byte string: its encoding. */
  lemma DecodesOnlyItsEncoding(s: string, bs: seq<byte>)
    ensures Decode(s) == Some(bs) <==> s == Encode(bs)
  {
    hide EncodeCodes, DecodeCodes;
    DecodeEncode(bs);
    if Decode(s) == Some(bs) {
      var cs := Codes(s).value;
      EncodeDecodeCodes(cs);
      forall i | 0 <= i < |s| ensures Symbols(cs)[i] == s[i] {
        SymbolOfCode(s[i]);
      }
    }
  }

  /** The alphabet of table 1 in section 4 of RFC 4648, and the padding character. */
  lemma AlphabetIs(v: code)
    ensures Symbol(0) == 'A' && Symbol(25) == 'Z' && Symbol(26) == 'a' && Symbol(51) == 'z'
    ensures Symbol(52) == '0' && Symbol(61) == '9' && Symbol(62) == '+' && Symbol(63) == '/' && Symbol(64) == '='
    ensures v < 61 && v !in {25, 51} ==> Symbol(v + 1) as int == Symbol(v) as int + 1
  {
  }

  /** Three bytes and the four codes that spell them are the same 24-bit number, most significant first. */
  lemma GroupValue(a: byte, b: byte, c: byte)
    ensures ((S0(a) * 64 + S1(a, b)) * 64 + S2(b, c)) * 64 + S3(c) == (a * 256 + b) * 256 + c
  {
  }

  // ---------------------------------------------------------------------------
  // The sniffers
  // ---------------------------------------------------------------------------

  /** `infer_mime_from_base64_prefix`. */
  function InferMime(s: string): Option<string> {
    if "/9j/" <= s then Some("image/jpeg")
    else if "iVBORw0KGgo" <= s then Some("image/png")
    else if "UklGR" <= s then Some("image/webp")
    else if "R0lGOD" <= s then Some("image/gif")
    else if "Qk" <= s then Some("image/bmp")
    else if "SUkq" <= s || "TU0" <= s then Some("image/tiff")
    else None
  }

  /** `detect_mime_from_bytes`. */
  function DetectMime(bs: seq<byte>): Option<string> {
    if |bs| < 4 then None
    else if bs[0] == 0x89 && bs[1] == 0x50 && bs[2] == 0x4E && bs[3] == 0x47 then Some("image/png")
    else if bs[0] == 0xFF && bs[1] == 0xD8 && bs[2] == 0xFF then Some("image/jpeg")
    else if bs[0] == 0x47 && bs[1] == 0x49 && bs[2] == 0x46 then Some("image/gif")
    else if bs[0] == 0x52 && bs[1] == 0x49 && bs[2] == 0x46 && |bs| >= 12
         && bs[8] == 0x57 && bs[9] == 0x45 && bs[10] == 0x42 && bs[11] == 0x50 then Some("image/webp")
    else if bs[0] == 0x42 && bs[1] == 0x4D then Some("image/bmp")
    else if bs[0] == 0x49 && bs[1] == 0x49 && bs[2] == 0x2A && bs[3] == 0x00 then Some("image/tiff")
    else if bs[0] == 0x4D && bs[1] == 0x4D && bs[2] == 0x00 && bs[3] == 0x2A then Some("image/tiff")
    else None
  }

  /** What the text sniffer recognises, said of the bytes behind the text. */
  function InferredFromBytes(bs: seq<byte>): Option<string> {
    if |bs| < 2 then None
    else if bs[0] == 0x42 && bs[1] / 16 == 4 then Some("image/bmp")
    else if bs[0] == 0x4D && bs[1] == 0x4D && (|bs| >= 3 ==> bs[2] < 0x40) then Some("image/tiff")
    else if |bs| < 3 then None
    else if bs[0] == 0x49 && bs[1] == 0x49 && bs[2] == 0x2A then Some("image/tiff")
    else if bs[0] == 0xFF && bs[1] == 0xD8 && bs[2] == 0xFF then Some("image/jpeg")
    else if |bs| < 4 then None
    else if bs[0] == 0x52 && bs[1] == 0x49 && bs[2] == 0x46 && bs[3] / 4 == 0x11 then Some("image/webp")
    else if |bs| < 5 then None
    else if bs[0] == 0x47 && bs[1] == 0x49 && bs[2] == 0x46 && bs[3] == 0x38 && bs[4] / 16 == 3 then Some("image/gif")
    else if |bs| < 8 then None
    else if bs[0] == 0x89 && bs[1] == 0x50 && bs[2] == 0x4E && bs[3] == 0x47 && bs[4] == 0x0D
         && bs[5] == 0x0A && bs[6] == 0x1A && bs[7] == 0x0A && (|bs| >= 9 ==> bs[8] < 0x40) then Some("image/png")
    else None
  }

  /** A prefix of the text is a prefix of its codes. */
  lemma PrefixIsCodes(p: string, pc: seq<code>, cs: seq<code>)
    requires Symbols(pc) == p
    ensures p <= Symbols(cs) <==> pc <= cs
  {
    var s := Symbols(cs);
    if pc <= cs {
      assert s[..|p|] == p;
    }
    if p <= s {
      forall i | 0 <= i < |pc| ensures pc[i] == cs[i] {
        assert s[i] == p[i];
        CodeOfSymbol(pc[i]);
        CodeOfSymbol(cs[i]);
      }
      assert cs[..|pc|] == pc;
    }
  }

  /** The codes of a text start with those of `p`, on the first group of bytes. */
  ghost predicate GroupStarts(bs: seq<byte>, pc: seq<code>)
    requires 1 <= |pc| <= 4
  {
    && |bs| >= 1 && pc[0] == S0(bs[0])
    && (|pc| >= 2 ==> pc[1] == S1(bs[0], if |bs| >= 2 then bs[1] else 0))
    && (|pc| >= 3 ==> |bs| >= 2 && pc[2] == S2(bs[1], if |bs| >= 3 then bs[2] else 0))
    && (|pc| >= 4 ==> |bs| >= 3 && pc[3] == S3(bs[2]))
  }

  lemma StartsWithin(bs: seq<byte>, pc: seq<code>)
    requires 1 <= |pc| <= 4 && forall i :: 0 <= i < |pc| ==> Six(pc[i])
    ensures pc <= EncodeCodes(bs) <==> GroupStarts(bs, pc)
  {
    hide S0, S1, S2, S3;
    var cs := EncodeCodes(bs);
    if |bs| >= 1 {
      assert cs[0] == S0(bs[0]) && cs[1] == S1(bs[0], if |bs| >= 2 then bs[1] else 0);
      assert cs[2] == if |bs| >= 2 then S2(bs[1], if |bs| >= 3 then bs[2] else 0) else PAD;
      assert cs[3] == if |bs| >= 3 then S3(bs[2]) else PAD;
      if GroupStarts(bs, pc) { assert cs[..|pc|] == pc; }
    }
  }

  lemma EncodeUnfolds(bs: seq<byte>)
    ensures |bs| >= 3 ==> |EncodeCodes(bs)| >= 4 && EncodeCodes(bs)[4..] == EncodeCodes(bs[3..])
    ensures |bs| < 3 ==> |EncodeCodes(bs)| <= 4
  {
    hide S0, S1, S2, S3;
  }

  lemma PrefixSplits(p: seq<code>, q: seq<code>, cs: seq<code>)
    ensures p + q <= cs <==> p <= cs && q <= cs[|p|..]
  {
    if p + q <= cs {
      assert cs[..|p|] == (p + q)[..|p|] == p;
      assert cs[|p|..][..|q|] == cs[..|p + q|][|p|..] == q;
    }
    if p <= cs && q <= cs[|p|..] {
      assert cs == p + cs[|p|..] == p + (q + cs[|p|..][|q|..]) == (p + q) + cs[|p|..][|q|..];
    }
  }

  /** A longer prefix: its first group, then the rest of it on the rest of the bytes. */
  lemma TwoGroups(bs: seq<byte>, p: seq<code>, q: seq<code>)
    requires |p| == 4 && |q| >= 1 && forall i :: 0 <= i < 4 ==> Six(p[i])
    ensures p + q <= EncodeCodes(bs) <==> |bs| >= 3 && GroupStarts(bs, p) && q <= EncodeCodes(bs[3..])
  {
    StartsWithin(bs, p);
    EncodeUnfolds(bs);
    hide EncodeCodes, GroupStarts;
    PrefixSplits(p, q, EncodeCodes(bs));
  }

  /** A full group of codes names three bytes. */
  lemma GroupIs(bs: seq<byte>, v: code, w: code, x: code, y: code)
    requires Six(v) && Six(w) && Six(x) && Six(y)
    ensures GroupStarts(bs, [v, w, x, y]) <==>
            |bs| >= 3 && bs[0] == B0(v, w) && bs[1] == B1(w, x) && bs[2] == B2(x, y)
  {
    hide S0, S1, S2, S3, B0, B1, B2;
    if |bs| >= 3 {
      GroupSpells(bs[0], bs[1], bs[2]);
      CodesSpell(v, w, x, y);
    }
  }

  // Prefixes that end inside a group fix only some bits of its last byte.

  lemma OneCode(bs: seq<byte>, v: code)
    requires Six(v)
    ensures [v] <= EncodeCodes(bs) <==> |bs| >= 1 && bs[0] / 4 == v
  {
    StartsWithin(bs, [v]);
    hide EncodeCodes;
  }

  lemma TwoCodes(bs: seq<byte>, v: code, w: code)
    requires Six(v) && Six(w) && w % 16 != 0
    ensures [v, w] <= EncodeCodes(bs) <==>
            |bs| >= 2 && bs[0] == B0(v, w) && bs[1] / 16 == w % 16
  {
    StartsWithin(bs, [v, w]);
    hide EncodeCodes;
    if |bs| >= 1 { TwoCodesBits(bs[0], if |bs| >= 2 then bs[1] else 0, v, w); }
  }

  lemma TwoCodesBits(a: byte, b: byte, v: code, w: code)
    requires Six(v) && Six(w)
    ensures S0(a) == v && S1(a, b) == w <==> a == B0(v, w) && b / 16 == w % 16
  {
  }

  lemma ThreeCodes(bs: seq<byte>, v: code, w: code, x: code)
    requires Six(v) && Six(w) && Six(x) && x % 4 == 0
    ensures [v, w, x] <= EncodeCodes(bs) <==>
            |bs| >= 2 && bs[0] == B0(v, w) && bs[1] == B1(w, x) && (|bs| >= 3 ==> bs[2] < 0x40)
  {
    StartsWithin(bs, [v, w, x]);
    hide EncodeCodes, S0, S1, S2, S3, B0, B1, B2;
    if |bs| >= 2 { ThreeCodesBits(bs[0], bs[1], if |bs| >= 3 then bs[2] else 0, v, w, x); }
  }

  lemma ThreeCodesBits(a: byte, b: byte, c: byte, v: code, w: code, x: code)
    requires Six(v) && Six(w) && Six(x) && x % 4 == 0
    ensures S0(a) == v && S1(a, b) == w && S2(b, c) == x <==> a == B0(v, w) && b == B1(w, x) && c < 0x40
  {
    GroupSpells(a, b, c);
    PaddedSpells(v, w, x);
    LowBits(b, c);
    hide S0, S1, S2, S3, B0, B1, B2;
  }

  lemma LowBits(b: byte, c: byte)
    ensures S2(b, c) % 4 == 0 <==> c < 0x40
    ensures c < 0x40 ==> S2(b, c) == S2(b, 0)
  {
  }

  lemma SniffJpeg(bs: seq<byte>)
    ensures "/9j/" <= Encode(bs) <==> |bs| >= 3 && bs[0] == 0xFF && bs[1] == 0xD8 && bs[2] == 0xFF
  {
    hide EncodeCodes, GroupStarts;
    PrefixIsCodes("/9j/", [63, 61, 35, 63], EncodeCodes(bs));
    StartsWithin(bs, [63, 61, 35, 63]);
    GroupIs(bs, 63, 61, 35, 63);
  }

  lemma SniffPng(bs: seq<byte>)
    ensures "iVBORw0KGgo" <= Encode(bs) <==>
            && |bs| >= 8 && bs[0] == 0x89 && bs[1] == 0x50 && bs[2] == 0x4E && bs[3] == 0x47
            && bs[4] == 0x0D && bs[5] == 0x0A && bs[6] == 0x1A && bs[7] == 0x0A && (|bs| >= 9 ==> bs[8] < 0x40)
  {
    hide EncodeCodes, GroupStarts;
    var p: seq<code>, q: seq<code>, r: seq<code> := [34, 21, 1, 14], [17, 48, 52, 10], [6, 32, 40];
    PrefixIsCodes("iVBORw0KGgo", p + (q + r), EncodeCodes(bs));
    TwoGroups(bs, p, q + r);
    GroupIs(bs, 34, 21, 1, 14);
    if |bs| >= 3 {
      TwoGroups(bs[3..], q, r);
      GroupIs(bs[3..], 17, 48, 52, 10);
      if |bs| >= 6 {
        assert bs[3..][3..] == bs[6..];
        ThreeCodes(bs[6..], 6, 32, 40);
      }
    }
  }

  lemma SniffWebp(bs: seq<byte>)
    ensures "UklGR" <= Encode(bs) <==>
            |bs| >= 4 && bs[0] == 0x52 && bs[1] == 0x49 && bs[2] == 0x46 && bs[3] / 4 == 0x11
  {
    hide EncodeCodes, GroupStarts;
    PrefixIsCodes("UklGR", [20, 36, 37, 6] + [17], EncodeCodes(bs));
    TwoGroups(bs, [20, 36, 37, 6], [17]);
    GroupIs(bs, 20, 36, 37, 6);
    if |bs| >= 3 { OneCode(bs[3..], 17); }
  }

  lemma SniffGif(bs: seq<byte>)
    ensures "R0lGOD" <= Encode(bs) <==>
            |bs| >= 5 && bs[0] == 0x47 && bs[1] == 0x49 && bs[2] == 0x46 && bs[3] == 0x38 && bs[4] / 16 == 3
  {
    hide EncodeCodes, GroupStarts;
    PrefixIsCodes("R0lGOD", [17, 52, 37, 6] + [14, 3], EncodeCodes(bs));
    TwoGroups(bs, [17, 52, 37, 6], [14, 3]);
    GroupIs(bs, 17, 52, 37, 6);
    if |bs| >= 3 { TwoCodes(bs[3..], 14, 3); }
  }

  lemma SniffBmp(bs: seq<byte>)
    ensures "Qk" <= Encode(bs) <==> |bs| >= 2 && bs[0] == 0x42 && bs[1] / 16 == 4
  {
    hide EncodeCodes, GroupStarts;
    PrefixIsCodes("Qk", [16, 36], EncodeCodes(bs));
    TwoCodes(bs, 16, 36);
  }

  lemma SniffTiff(bs: seq<byte>)
    ensures "SUkq" <= Encode(bs) <==> |bs| >= 3 && bs[0] == 0x49 && bs[1] == 0x49 && bs[2] == 0x2A
    ensures "TU0" <= Encode(bs) <==> |bs| >= 2 && bs[0] == 0x4D && bs[1] == 0x4D && (|bs| >= 3 ==> bs[2] < 0x40)
  {
    hide EncodeCodes, GroupStarts;
    PrefixIsCodes("SUkq", [18, 20, 36, 42], EncodeCodes(bs));
    StartsWithin(bs, [18, 20, 36, 42]);
    GroupIs(bs, 18, 20, 36, 42);
    PrefixIsCodes("TU0", [19, 20, 52], EncodeCodes(bs));
    ThreeCodes(bs, 19, 20, 52);
  }

  /** The text sniffer sees exactly these patterns in the bytes behind the text. */
  lemma InferMimeOfEncoding(bs: seq<byte>)
    ensures InferMime(Encode(bs)) == InferredFromBytes(bs)
  {
    hide Encode;
    SniffJpeg(bs); SniffPng(bs); SniffWebp(bs); SniffGif(bs); SniffBmp(bs); SniffTiff(bs);
  }

  /** The two sniffers never contradict each other. */
  lemma MimesAgree(bs: seq<byte>)
    requires InferMime(Encode(bs)).Some? && DetectMime(bs).Some?
    ensures InferMime(Encode(bs)) == DetectMime(bs)
  {
    InferMimeOfEncoding(bs);
    hide Encode, InferMime;
  }

  // ---------------------------------------------------------------------------
  // The dispatcher
  // ---------------------------------------------------------------------------

  const MAX_IMAGE_SIZE: nat := 10 * 1024 * 1024
  const MAX_BASE64_LEN: nat := MAX_IMAGE_SIZE * 4 / 3 + 4
  const MIN_MAGIC_LEN: nat := 32
  const MIN_PLAIN_LEN: nat := 1024

  const SUBTYPES: seq<string> := ["png", "jpeg", "jpg", "gif", "webp", "bmp", "tiff"]

  datatype Reason = Empty | TooLong | UnsupportedType | Undecodable | TooLarge | UnsupportedScheme

  /** What becomes of an input; the three I/O branches are only named. */
  datatype Outcome =
    | Image(bytes: seq<byte>, mime: string)
    | FetchHttp
    | ReadInternal
    | ReadLocal
    | Refused(reason: Reason)

  function Lower(s: string): (r: string)
    ensures |r| == |s| && forall i :: 0 <= i < |s| ==> r[i] == LowerChar(s[i])
  {
    seq(|s|, i requires 0 <= i < |s| => LowerChar(s[i]))
  }

  function LowerChar(c: char): char {
    if 'A' <= c <= 'Z' then (c - 'A') + 'a' else c
  }

  /** The first position of `p` in `s`. */
  function Find(s: string, p: string): (r: Option<nat>)
    ensures r.Some? ==> r.value <= |s| && p <= s[r.value..] && forall i :: 0 <= i < r.value ==> !(p <= s[i..])
    ensures r.None? ==> forall i :: 0 <= i <= |s| ==> !(p <= s[i..])
  {
    if p <= s then Some(0)
    else if s == [] then None
    else
      match Find(s[1..], p)
      case None =>
        assert forall i :: 1 <= i <= |s| ==> s[i..] == s[1..][i - 1..];
        None
      case Some(k) =>
        assert forall i :: 1 <= i <= |s| ==> s[i..] == s[1..][i - 1..];
        Some(k + 1)
  }

  function Contains(s: string, p: string): bool {
    Find(s, p).Some?
  }

  predicate InAlphabet(s: string) {
    forall i :: 0 <= i < |s| ==> CodeOf(s[i]).Some?
  }

  /** `looks_like_raw_base64`. */
  predicate LooksLikeRawBase64(s: string) {
    && s != []
    && InAlphabet(s)
    && ((|s| >= MIN_MAGIC_LEN && InferMime(s).Some?) || |s| >= MIN_PLAIN_LEN)
  }

  /** The decoding step every base64 branch ends with. */
  function DecodeWithin(b64: string, mime: string, maxSize: nat): Outcome {
    match Decode(b64)
    case None => Refused(Undecodable)
    case Some(bytes) => if |bytes| > maxSize then Refused(TooLarge) else Image(bytes, mime)
  }

  /** A raw base64 input: its checks in order, then the decoding. */
  function Accept(b64: string, mime: string, maxSize: nat): Outcome {
    if b64 == [] then Refused(Empty)
    else if |b64| > MAX_BASE64_LEN then Refused(TooLong)
    else DecodeWithin(b64, mime, maxSize)
  }

  function FromDataUrl(suffix: string, b64: string, maxSize: nat): Outcome {
    if b64 == [] then Refused(Empty)
    else if |b64| > MAX_BASE64_LEN then Refused(TooLong)
    else if Lower(suffix) !in SUBTYPES then Refused(UnsupportedType)
    else DecodeWithin(b64, "image/" + Lower(suffix), maxSize)
  }

  /** The part after `data:image/`, or after `image/` when the scheme is missing. */
  function DataUrlRest(s: string): Option<string> {
    var lower := Lower(if |s| >= 11 then s[..11] else s);
    if lower == "data:image/" then Some(s[11..])
    else if Contains(s, ";base64,") && "image/" <= lower then Some(s[6..])
    else None
  }

  /** Branches 2 to 7, for an input that is no data URL. */
  function ResolveOther(s: string, maxSize: nat): Outcome {
    if "http://" <= s || "https://" <= s then FetchHttp
    else if "/api/images/" <= s then ReadInternal
    else if Contains(s, "://") then Refused(UnsupportedScheme)
    else if LooksLikeRawBase64(s) then
      Accept(s, match InferMime(s) case Some(m) => m case None => "image/jpeg", maxSize)
    else if "/" <= s || "./" <= s then ReadLocal
    else Accept(s, "image/jpeg", maxSize)
  }

  /** `resolve_image`. */
  function Resolve(s: string, maxSize: nat): Outcome {
    match DataUrlRest(s)
    case None => ResolveOther(s, maxSize)
    case Some(rest) =>
      match Find(rest, ";base64,")
      case None => ResolveOther(s, maxSize)
      case Some(k) => FromDataUrl(rest[..k], rest[k + 8..], maxSize)
  }

  // ---------------------------------------------------------------------------
  // Raw base64 through the dispatcher
  // ---------------------------------------------------------------------------

  /** The nine bytes whose encoding reads "/api/images/". */
  const API_IMAGES: seq<byte> := [0xFD, 0xAA, 0x62, 0xFE, 0x29, 0x9A, 0x81, 0xEB, 0x3F]

  /** Byte strings no longer than this encode within MAX_BASE64_LEN. */
  const MAX_ENCODED_BYTES: nat := MAX_IMAGE_SIZE + 2

  /** What `resolve_image` makes of encoded bytes, said of the bytes alone. */
  function ResolvedFromBytes(bs: seq<byte>, maxSize: nat): Outcome {
    if bs == [] then Refused(Empty)
    else if API_IMAGES <= bs then ReadInternal
    else if |bs| >= 22 && InferredFromBytes(bs).Some? then Limited(bs, InferredFromBytes(bs).value, maxSize)
    else if |bs| < 766 && bs[0] >= 0xFC then ReadLocal
    else Limited(bs, "image/jpeg", maxSize)
  }

  function Limited(bs: seq<byte>, mime: string, maxSize: nat): Outcome {
    if |bs| > MAX_ENCODED_BYTES then Refused(TooLong)
    else if |bs| > maxSize then Refused(TooLarge)
    else Image(bs, mime)
  }

  lemma EncodeIsPlain(bs: seq<byte>)
    ensures InAlphabet(Encode(bs)) && |Encode(bs)| == (|bs| + 2) / 3 * 4
  {
    hide EncodeCodes;
    forall i | 0 <= i < |Encode(bs)| ensures CodeOf(Encode(bs)[i]).Some? {
      CodeOfSymbol(EncodeCodes(bs)[i]);
    }
  }

  /** A text in the alphabet holds no character outside it. */
  lemma PlainLacks(s: string, p: string, i: nat)
    requires InAlphabet(s) && i < |p| && CodeOf(p[i]).None?
    ensures !Contains(s, p) && !(p <= s)
  {
  }

  lemma PlainIsNoDataUrl(s: string)
    requires InAlphabet(s)
    ensures DataUrlRest(s) == None
  {
    PlainLacks(s, ";base64,", 0);
    if |s| >= 11 {
      assert Lower(s[..11])[4] == LowerChar(s[4]);
      assert CodeOf(s[4]).Some?;
      assert LowerChar(s[4]) != ':';
    }
  }

  lemma SniffInternal(bs: seq<byte>)
    ensures "/api/images/" <= Encode(bs) <==> API_IMAGES <= bs
  {
    hide EncodeCodes, GroupStarts;
    var p: seq<code>, q: seq<code>, r: seq<code> := [63, 26, 41, 34], [63, 34, 38, 26], [32, 30, 44, 63];
    PrefixIsCodes("/api/images/", p + (q + r), EncodeCodes(bs));
    TwoGroups(bs, p, q + r);
    GroupIs(bs, 63, 26, 41, 34);
    if |bs| >= 3 {
      TwoGroups(bs[3..], q, r);
      GroupIs(bs[3..], 63, 34, 38, 26);
      if |bs| >= 6 {
        assert bs[3..][3..] == bs[6..];
        StartsWithin(bs[6..], r);
        GroupIs(bs[6..], 32, 30, 44, 63);
      }
    }
  }

  lemma SniffSlash(bs: seq<byte>)
    ensures "/" <= Encode(bs) <==> |bs| >= 1 && bs[0] >= 0xFC
  {
    hide EncodeCodes, GroupStarts;
    PrefixIsCodes("/", [63], EncodeCodes(bs));
    OneCode(bs, 63);
  }

  lemma AcceptEncoding(bs: seq<byte>, mime: string, maxSize: nat)
    ensures Accept(Encode(bs), mime, maxSize) == if bs == [] then Refused(Empty) else Limited(bs, mime, maxSize)
  {
    EncodeIsPlain(bs);
    DecodeEncode(bs);
    hide Encode, Decode;
  }

  lemma LooksLikeEncoding(bs: seq<byte>)
    ensures LooksLikeRawBase64(Encode(bs)) <==> (|bs| >= 22 && InferredFromBytes(bs).Some?) || |bs| >= 766
  {
    EncodeIsPlain(bs);
    InferMimeOfEncoding(bs);
    hide Encode, InferMime, InferredFromBytes;
  }

  /** The branch every encoded byte string takes, and its result, for all byte strings and limits. */
  lemma ResolveOfEncoding(bs: seq<byte>, maxSize: nat)
    ensures Resolve(Encode(bs), maxSize) == ResolvedFromBytes(bs, maxSize)
  {
    hide Encode, InferMime, InferredFromBytes, DataUrlRest, Contains, Accept, Limited, LooksLikeRawBase64;
    var s := Encode(bs);
    EncodeIsPlain(bs);
    PlainIsNoDataUrl(s);
    PlainLacks(s, "http://", 4);
    PlainLacks(s, "https://", 5);
    PlainLacks(s, "://", 0);
    PlainLacks(s, "./", 0);
    SniffInternal(bs);
    SniffSlash(bs);
    LooksLikeEncoding(bs);
    InferMimeOfEncoding(bs);
    AcceptEncoding(bs, "image/jpeg", maxSize);
    if InferredFromBytes(bs).Some? { AcceptEncoding(bs, InferredFromBytes(bs).value, maxSize); }
  }

  /** JPEG bytes within the limits come back unchanged exactly from 22 bytes on; shorter ones pass for a path. */
  lemma JpegRoundTrip(bs: seq<byte>, maxSize: nat)
    requires |bs| >= 3 && bs[0] == 0xFF && bs[1] == 0xD8 && bs[2] == 0xFF
    requires |bs| <= MAX_IMAGE_SIZE && |bs| <= maxSize
    ensures Resolve(Encode(bs), maxSize) == Image(bs, "image/jpeg") <==> |bs| >= 22
    ensures |bs| < 22 ==> Resolve(Encode(bs), maxSize) == ReadLocal
  {
    ResolveOfEncoding(bs, maxSize);
    hide Encode, Resolve;
  }

  // ---------------------------------------------------------------------------
  // Data URLs through the dispatcher
  // ---------------------------------------------------------------------------

  /** The separator is found right after a text that does not hold its first character. */
  lemma FindAfter(a: string, p: string, b: string)
    requires p != [] && p[0] !in a
    ensures Find(a + p + b, p) == Some(|a|)
  {
    hide Find;
    var s := a + p + b;
    assert s[|a|..] == p + b;
    assert forall i :: 0 <= i < |a| && p <= s[i..] ==> s[i] == p[0] && s[i] in a;
  }

  /** Lower-casing touches the Latin capitals only. */
  lemma LowerIs(c: char)
    ensures 'A' <= c <= 'Z' ==> LowerChar(c) as int == c as int + 32
    ensures LowerChar(c) == c <==> !('A' <= c <= 'Z')
  {
  }

  lemma LowerPrefix(a: string, b: string)
    ensures |a| <= |Lower(a + b)| && Lower(a + b)[..|a|] == Lower(a)
  {
  }

  lemma SubtypeHasNoSemicolon(sub: string)
    requires Lower(sub) in SUBTYPES
    ensures ';' !in sub
  {
    assert forall i :: 0 <= i < |sub| ==> LowerChar(sub[i]) in Lower(sub);
  }

  /** A data URL in any letter case, with or without its scheme, yields the encoded bytes and the named type. */
  lemma DataUrlRoundTrip(prefix: string, sub: string, bs: seq<byte>, maxSize: nat)
    requires Lower(prefix) == "data:image/" || Lower(prefix) == "image/"
    requires Lower(sub) in SUBTYPES && bs != []
    ensures Resolve(prefix + sub + ";base64," + Encode(bs), maxSize) == Limited(bs, "image/" + Lower(sub), maxSize)
  {
    var s := prefix + sub + ";base64," + Encode(bs);
    var rest := sub + ";base64," + Encode(bs);
    assert s == prefix + rest;
    SubtypeHasNoSemicolon(sub);
    FindAfter(sub, ";base64,", Encode(bs));
    DataUrlRestIs(prefix, rest);
    assert rest[..|sub|] == sub && rest[|sub| + 8..] == Encode(bs);
    AcceptEncoding(bs, "image/" + Lower(sub), maxSize);
  }

  lemma DataUrlRestIs(prefix: string, rest: string)
    requires Lower(prefix) == "data:image/" || (Lower(prefix) == "image/" && Contains(rest, ";base64,"))
    ensures DataUrlRest(prefix + rest) == Some(rest)
  {
    var s := prefix + rest;
    assert |prefix| == |Lower(prefix)| && s[|prefix|..] == rest;
    if Lower(prefix) == "data:image/" {
      assert s[..11] == prefix;
    } else {
      var k := Find(rest, ";base64,").value;
      assert s[6 + k..] == rest[k..];
      var head := if |s| >= 11 then s[..11] else s;
      assert head == prefix + head[6..];
      LowerPrefix(prefix, head[6..]);
      assert Lower(head)[0] == 'i';
    }
  }

  lemma SlashIsNoDataUrl(s: string)
    requires "/" <= s
    ensures DataUrlRest(s) == None && !("http://" <= s) && !("https://" <= s)
  {
    var head := if |s| >= 11 then s[..11] else s;
    assert s[0] == '/' && Lower(head)[0] == '/';
  }

  lemma AcceptDecodes(b64: string, mime: string, maxSize: nat)
    ensures var r := Accept(b64, mime, maxSize); r != ReadLocal && (r.Image? ==> Decode(b64) == Some(r.bytes))
  {
    hide Decode;
  }

  /** An input that starts like a path is decoded only when it is pure base64 that carries a magic prefix or is long. */
  lemma PathIsNotDecoded(s: string, maxSize: nat)
    requires "/" <= s
    ensures Resolve(s, maxSize) == ReadLocal <==>
            !("/api/images/" <= s) && !Contains(s, "://") && !LooksLikeRawBase64(s)
    ensures Resolve(s, maxSize).Image? ==> LooksLikeRawBase64(s) && Decode(s) == Some(Resolve(s, maxSize).bytes)
  {
    SlashIsNoDataUrl(s);
    AcceptDecodes(s, match InferMime(s) case Some(m) => m case None => "image/jpeg", maxSize);
    hide Decode, LooksLikeRawBase64, Contains, Accept, DataUrlRest, InferMime;
  }

  // ---------------------------------------------------------------------------
  // Every outcome, in terms of the text
  // ---------------------------------------------------------------------------

  /** The text is a data URL of these parts, cut at the first separator. */
  ghost predicate DataUrlOf(s: string, prefix: string, suffix: string, b64: string) {
    && (Lower(prefix) == "data:image/" || Lower(prefix) == "image/")
    && s == prefix + (suffix + ";base64," + b64)
    && forall i :: 0 <= i < |suffix| ==> !(";base64," <= (suffix + ";base64," + b64)[i..])
  }

  ghost predicate IsDataUrl(s: string) {
    exists prefix, suffix, b64 :: DataUrlOf(s, prefix, suffix, b64)
  }

  lemma FindIs(s: string, p: string, k: nat)
    requires k <= |s| && p <= s[k..] && forall i :: 0 <= i < k ==> !(p <= s[i..])
    ensures Find(s, p) == Some(k)
  {
    hide Find;
    var r := Find(s, p);
    assert r.Some? && !(r.value < k) && !(k < r.value);
  }

  /** The data-URL branch is taken for data URLs, on their parts. */
  lemma ResolveOfDataUrl(s: string, prefix: string, suffix: string, b64: string, maxSize: nat)
    requires DataUrlOf(s, prefix, suffix, b64)
    ensures Resolve(s, maxSize) == FromDataUrl(suffix, b64, maxSize)
  {
    hide Find, FromDataUrl, Lower, ResolveOther;
    var rest := suffix + ";base64," + b64;
    assert rest[|suffix|..] == ";base64," + b64;
    FindIs(rest, ";base64,", |suffix|);
    DataUrlRestIs(prefix, rest);
    assert rest[..|suffix|] == suffix && rest[|suffix| + 8..] == b64;
  }

  /** And for nothing else. */
  lemma ResolveOfOther(s: string, maxSize: nat)
    requires !IsDataUrl(s)
    ensures Resolve(s, maxSize) == ResolveOther(s, maxSize)
  {
    hide Find, FromDataUrl, ResolveOther, DataUrlRest;
    if DataUrlRest(s).Some? && Find(DataUrlRest(s).value, ";base64,").Some? {
      DataUrlFound(s);
    }
  }

  lemma DataUrlFound(s: string)
    requires DataUrlRest(s).Some? && Find(DataUrlRest(s).value, ";base64,").Some?
    ensures IsDataUrl(s)
  {
    hide Find, DataUrlRest;
    var rest := DataUrlRest(s).value;
    var k := Find(rest, ";base64,").value;
    var prefix := DataUrlPrefix(s);
    SplitAt(rest, k);
    assert DataUrlOf(s, prefix, rest[..k], rest[k + 8..]);
  }

  lemma DataUrlPrefix(s: string) returns (prefix: string)
    requires DataUrlRest(s).Some?
    ensures (Lower(prefix) == "data:image/" || Lower(prefix) == "image/") && s == prefix + DataUrlRest(s).value
  {
    hide Find, Contains;
    var head := if |s| >= 11 then s[..11] else s;
    if Lower(head) == "data:image/" {
      prefix := s[..11];
    } else {
      prefix := s[..6];
      LowerPrefix(prefix, head[6..]);
      assert head == prefix + head[6..];
      assert Lower(prefix) == Lower(head)[..6] == "image/";
    }
  }

  lemma SplitAt(rest: string, k: nat)
    requires k <= |rest| && ";base64," <= rest[k..] && forall i :: 0 <= i < k ==> !(";base64," <= rest[i..])
    ensures k + 8 <= |rest| && rest == rest[..k] + ";base64," + rest[k + 8..]
  {
    assert rest[k..][..8] == ";base64,";
    assert rest[k..k + 8] == ";base64,";
    assert rest == rest[..k] + rest[k..k + 8] + rest[k + 8..];
  }

  /** A text that starts with none of the letters of a data URL is none. */
  lemma FirstLetterDecides(s: string)
    requires s == [] || LowerChar(s[0]) !in {'d', 'i'}
    ensures !IsDataUrl(s)
  {
    if IsDataUrl(s) {
      var prefix, suffix, b64 := PartsOf(s);
      DataUrlLetter(s, prefix, suffix, b64);
    }
  }

  lemma DataUrlLetter(s: string, prefix: string, suffix: string, b64: string)
    requires DataUrlOf(s, prefix, suffix, b64)
    ensures s != [] && LowerChar(s[0]) in {'d', 'i'}
  {
    assert Lower(prefix)[0] == LowerChar(prefix[0]) && s[0] == prefix[0];
  }

  /** The base64 heuristic, said character by character and prefix by prefix. */
  ghost predicate LooksEncoded(s: string) {
    && (forall c :: c in s ==> 'A' <= c <= 'Z' || 'a' <= c <= 'z' || '0' <= c <= '9' || c in {'+', '/', '='})
    && (|s| >= 1024
        || (|s| >= 32
            && ("/9j/" <= s || "iVBORw0KGgo" <= s || "UklGR" <= s || "R0lGOD" <= s || "Qk" <= s || "SUkq" <= s || "TU0" <= s)))
  }

  lemma LooksLikeIff(s: string)
    ensures LooksLikeRawBase64(s) <==> LooksEncoded(s)
  {
    AlphabetIff(s);
    hide InAlphabet;
  }

  lemma AlphabetIff(s: string)
    ensures InAlphabet(s) <==>
            forall c :: c in s ==> 'A' <= c <= 'Z' || 'a' <= c <= 'z' || '0' <= c <= '9' || c in {'+', '/', '='}
  {
    if InAlphabet(s) {
      forall c | c in s ensures 'A' <= c <= 'Z' || 'a' <= c <= 'z' || '0' <= c <= '9' || c in {'+', '/', '='} {
        var i :| 0 <= i < |s| && s[i] == c;
        assert CodeOf(s[i]).Some?;
      }
    } else {
      var i :| 0 <= i < |s| && CodeOf(s[i]).None?;
      assert s[i] in s;
    }
  }

  lemma StartsWithLetter(s: string, p: string)
    requires p != [] && p <= s
    ensures s != [] && s[0] == p[0]
  {
  }

  /** A web address, an internal one and a path are no data URLs; nor are they one another. */
  lemma PrefixesExclude(s: string)
    ensures "http://" <= s || "https://" <= s || "/" <= s || "./" <= s || "/api/images/" <= s ==> !IsDataUrl(s)
    ensures "/api/images/" <= s ==> !("http://" <= s) && !("https://" <= s)
  {
    hide IsDataUrl;
    if "http://" <= s || "https://" <= s || "/" <= s || "./" <= s || "/api/images/" <= s {
      assert s[0] in {'h', '/', '.'};
      FirstLetterDecides(s);
    }
  }

  lemma AcceptOutcomes(b64: string, mime: string, maxSize: nat)
    ensures var r := Accept(b64, mime, maxSize);
            r.Image? || (r.Refused? && r.reason in {Empty, TooLong, Undecodable, TooLarge})
  {
    hide Decode;
  }

  lemma DataUrlOutcomes(suffix: string, b64: string, maxSize: nat)
    ensures var r := FromDataUrl(suffix, b64, maxSize); r.Image? || (r.Refused? && r.reason != UnsupportedScheme)
  {
    hide Decode;
  }

  /**
   Which input takes which way out, for every text and limit: the web, the internal images, a local
   path, or the refusal of another scheme. Everything else is decoded or refused as data.
   */
  lemma OutcomeIff(s: string, maxSize: nat)
    ensures Resolve(s, maxSize) == FetchHttp <==> "http://" <= s || "https://" <= s
    ensures Resolve(s, maxSize) == ReadInternal <==> "/api/images/" <= s
    ensures Resolve(s, maxSize) == Refused(UnsupportedScheme) <==>
            && Contains(s, "://") && !("http://" <= s) && !("https://" <= s)
            && !("/api/images/" <= s) && !IsDataUrl(s)
    ensures Resolve(s, maxSize) == ReadLocal <==>
            ("/" <= s || "./" <= s) && !("/api/images/" <= s) && !Contains(s, "://") && !LooksEncoded(s)
  {
    PrefixesExclude(s);
    LooksLikeIff(s);
    hide IsDataUrl, Contains, LooksEncoded, LooksLikeRawBase64, Resolve, InferMime, Accept, FromDataUrl;
    if IsDataUrl(s) {
      var prefix, suffix, b64 := PartsOf(s);
      ResolveOfDataUrl(s, prefix, suffix, b64, maxSize);
      DataUrlOutcomes(suffix, b64, maxSize);
    } else {
      ResolveOfOther(s, maxSize);
      AcceptOutcomes(s, match InferMime(s) case Some(m) => m case None => "image/jpeg", maxSize);
      AcceptOutcomes(s, "image/jpeg", maxSize);
      WebHasScheme(s);
    }
  }

  lemma PartsOf(s: string) returns (prefix: string, suffix: string, b64: string)
    requires IsDataUrl(s)
    ensures DataUrlOf(s, prefix, suffix, b64)
  {
    prefix, suffix, b64 :| DataUrlOf(s, prefix, suffix, b64);
  }

  /** Internal addresses and paths are told apart by their first characters. */
  lemma WebHasScheme(s: string)
    ensures "http://" <= s || "https://" <= s ==> !("/" <= s) && !("./" <= s)
  {
    if "http://" <= s { StartsWithLetter(s, "http://"); }
    if "https://" <= s { StartsWithLetter(s, "https://"); }
    if "/" <= s { StartsWithLetter(s, "/"); }
    if "./" <= s { StartsWithLetter(s, "./"); }
  }

  /** What is returned for data that is no data URL: the bytes the text encodes, as their encoding resolves. */
  lemma ImageIff(s: string, bs: seq<byte>, mime: string, maxSize: nat)
    requires !IsDataUrl(s)
    ensures Resolve(s, maxSize) == Image(bs, mime) <==>
            s == Encode(bs) && ResolvedFromBytes(bs, maxSize) == Image(bs, mime)
  {
    hide Decode, Encode, Resolve, ResolvedFromBytes, InferMime, LooksLikeRawBase64, Contains, IsDataUrl;
    DecodesOnlyItsEncoding(s, bs);
    if s == Encode(bs) {
      ResolveOfEncoding(bs, maxSize);
    } else {
      ResolveOfOther(s, maxSize);
    }
  }

  /** A data URL: each refusal in its order, else the bytes that its data encodes, with the type it names. */
  lemma DataUrlOutcomeIff(s: string, prefix: string, suffix: string, b64: string, bs: seq<byte>, maxSize: nat)
    requires DataUrlOf(s, prefix, suffix, b64)
    ensures var r := Resolve(s, maxSize);
            var known := Lower(suffix) in {"png", "jpeg", "jpg", "gif", "webp", "bmp", "tiff"};
            && (r == Refused(Empty) <==> b64 == [])
            && (r == Refused(TooLong) <==> |b64| > 13981017)
            && (r == Refused(UnsupportedType) <==> b64 != [] && |b64| <= 13981017 && !known)
            && (r == Refused(Undecodable) <==>
                  b64 != [] && |b64| <= 13981017 && known && forall x: seq<byte> {:trigger Encode(x)} :: b64 != Encode(x))
            && (b64 == Encode(bs) && bs != [] && |b64| <= 13981017 && known ==>
                  r == if |bs| > maxSize then Refused(TooLarge) else Image(bs, "image/" + Lower(suffix)))
  {
    hide Decode, Encode, Resolve, DataUrlOf, Lower;
    ResolveOfDataUrl(s, prefix, suffix, b64, maxSize);
    DecodesOnlyItsEncoding(b64, bs);
    EmptyEncoding(bs);
    SubtypeIff(Lower(suffix));
    hide SUBTYPES;
    forall x: seq<byte> ensures Decode(b64) == Some(x) <==> b64 == Encode(x) {
      DecodesOnlyItsEncoding(b64, x);
    }
  }

  /** Any other data: each refusal in its order, else the bytes that the text encodes. */
  lemma RawOutcomeIff(s: string, bs: seq<byte>, maxSize: nat)
    requires !IsDataUrl(s) && !("http://" <= s) && !("https://" <= s) && !("/api/images/" <= s) && !Contains(s, "://")
    requires "/" <= s || "./" <= s ==> LooksEncoded(s)
    ensures var r := Resolve(s, maxSize);
            && (r == Refused(Empty) <==> s == [])
            && (r == Refused(TooLong) <==> |s| > 13981017)
            && (r == Refused(Undecodable) <==>
                  s != [] && |s| <= 13981017 && forall x: seq<byte> {:trigger Encode(x)} :: s != Encode(x))
            && (s == Encode(bs) && bs != [] && |s| <= 13981017 ==>
                  if |bs| > maxSize then r == Refused(TooLarge) else r.Image? && r.bytes == bs)
  {
    hide Decode, Encode, Resolve, IsDataUrl, LooksEncoded, LooksLikeRawBase64, Contains, InferMime;
    ResolveOfOther(s, maxSize);
    LooksLikeIff(s);
    DecodesOnlyItsEncoding(s, bs);
    EmptyEncoding(bs);
    forall x: seq<byte> ensures Decode(s) == Some(x) <==> s == Encode(x) {
      DecodesOnlyItsEncoding(s, x);
    }
  }

  lemma EmptyEncoding(bs: seq<byte>)
    ensures Encode(bs) == [] <==> bs == []
  {
    EncodeIsPlain(bs);
  }

  lemma SubtypeIff(t: string)
    ensures t in SUBTYPES <==> t in {"png", "jpeg", "jpg", "gif", "webp", "bmp", "tiff"}
  {
  }

  /** The byte sniffer, format by format. */
  lemma DetectedIff(bs: seq<byte>)
    ensures DetectMime(bs) == Some("image/png") <==> [0x89, 0x50, 0x4E, 0x47] <= bs
    ensures DetectMime(bs) == Some("image/jpeg") <==> |bs| >= 4 && [0xFF, 0xD8, 0xFF] <= bs
    ensures DetectMime(bs) == Some("image/gif") <==> |bs| >= 4 && [0x47, 0x49, 0x46] <= bs
    ensures DetectMime(bs) == Some("image/webp") <==>
            |bs| >= 12 && [0x52, 0x49, 0x46] <= bs && bs[8..12] == [0x57, 0x45, 0x42, 0x50]
    ensures DetectMime(bs) == Some("image/bmp") <==> |bs| >= 4 && [0x42, 0x4D] <= bs
    ensures DetectMime(bs) == Some("image/tiff") <==> [0x49, 0x49, 0x2A, 0x00] <= bs || [0x4D, 0x4D, 0x00, 0x2A] <= bs
  {
    if |bs| >= 12 {
      var w := bs[8..12];
      assert w == [bs[8], bs[9], bs[10], bs[11]];
    }
  }
}
