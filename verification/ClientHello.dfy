/** `ClientHelloRewriter::rewrite` of pptls.cpp: parse a ClientHello (section 4.1.2 of RFC 8446),
    replace its cipher suites, compression methods and extensions, and print it again. */
module ClientHello {
  import Bits
  import opened Options

  type byte = x: int | 0 <= x < 0x100
  type u16 = x: int | 0 <= x < 0x1_0000
  type Bytes = seq<byte>

  datatype Extension = Extension(id: u16, data: Bytes)

  // A ClientHello without its handshake header.
  datatype Hello = Hello(
    version: u16, random: Bytes, sessionId: Bytes, ciphers: Bytes, compression: Bytes,
    extensions: seq<Extension>)

  datatype Strategy = Auto | ForceData | Drop

  datatype Config = Config(id: u16, strategy: Strategy, data: Bytes)

  datatype Spec = Spec(ciphers: seq<u16>, compression: Bytes, extensions: seq<Config>)

  // ---------- wire format ----------

  function U16(n: u16): (r: Bytes)
    ensures |r| == 2
  {
    [n / 0x100, n % 0x100]
  }

  // The sizes are cast to the width of their prefix.
  function Size8(s: Bytes): byte { |s| % 0x100 }

  function Size16(s: Bytes): u16 { |s| % 0x1_0000 }

  function U24(n: nat): (r: Bytes)
    ensures |r| == 3
  {
    [n / 0x1_0000 % 0x100, n / 0x100 % 0x100, n % 0x100]
  }

  function Vec8(s: Bytes): Bytes { [Size8(s)] + s }

  function Vec16(s: Bytes): Bytes { U16(Size16(s)) + s }

  function ExtBytes(e: Extension): Bytes { U16(e.id) + Vec16(e.data) }

  function ExtensionBlock(es: seq<Extension>): Bytes {
    if es == [] then [] else ExtBytes(es[0]) + ExtensionBlock(es[1..])
  }

  function Body(h: Hello): Bytes {
    U16(h.version) + (h.random + (Vec8(h.sessionId) + (Vec16(h.ciphers) + (Vec8(h.compression) +
    Vec16(ExtensionBlock(h.extensions))))))
  }

  function Print(h: Hello): Bytes {
    [1] + U24(|Body(h)|) + Body(h)
  }

  // ---------- reading ----------

  // A value and what is left to read.
  datatype Read<T> = NoData | Got(value: T, rest: Bytes)

  function ReadU16(s: Bytes): Read<u16> {
    if |s| < 2 then NoData
    else
      var high: int, low: int := s[0], s[1];
      Got(0x100 * high + low, s[2..])
  }

  function ReadBytes(s: Bytes, n: nat): Read<Bytes> {
    if |s| < n then NoData else Got(s[..n], s[n..])
  }

  function ReadVec8(s: Bytes): Read<Bytes> {
    if |s| < 1 then NoData else ReadBytes(s[1..], s[0])
  }

  function ReadVec16(s: Bytes): Read<Bytes> {
    match ReadU16(s)
    case NoData => NoData
    case Got(n, rest) => ReadBytes(rest, n)
  }

  function ReadExtension(s: Bytes): Read<Extension> {
    match ReadU16(s)
    case NoData => NoData
    case Got(id, rest) =>
      match ReadVec16(rest)
      case NoData => NoData
      case Got(data, rest) => Got(Extension(id, data), rest)
  }

  lemma ReadExtensionShrinks(s: Bytes)
    ensures ReadExtension(s).Got? ==> |ReadExtension(s).rest| < |s|
  {
  }

  function ParseExtensions(s: Bytes): Option<seq<Extension>>
    decreases |s|
  {
    if s == [] then Some([])
    else
      ReadExtensionShrinks(s);
      match ReadExtension(s)
      case NoData => None
      case Got(e, rest) =>
        match ParseExtensions(rest)
        case None => None
        case Some(es) => Some([e] + es)
  }

  // From the legacy version on. Bytes after the extension block are not read.
  function ParseBody(s: Bytes): Option<Hello> {
    match ReadU16(s)
    case NoData => None
    case Got(version, s) =>
      match ReadBytes(s, 32)
      case NoData => None
      case Got(random, s) =>
        match ReadVec8(s)
        case NoData => None
        case Got(sessionId, s) =>
          match ReadVec16(s)
          case NoData => None
          case Got(ciphers, s) =>
            match ReadVec8(s)
            case NoData => None
            case Got(compression, s) =>
              match ReadVec16(s)
              case NoData => None
              case Got(block, _) =>
                match ParseExtensions(block)
                case None => None
                case Some(es) => Some(Hello(version, random, sessionId, ciphers, compression, es))
  }

  // The length in the handshake header is skipped.
  function Parse(s: Bytes): Option<Hello> {
    if |s| < 4 || s[0] != 1 then None else ParseBody(s[4..])
  }

  // ---------- what is written ----------

  function CipherBytes(cs: seq<u16>): Bytes {
    if cs == [] then [] else CipherBytes(cs[..|cs| - 1]) + U16(cs[|cs| - 1])
  }

  // The first extension with the given id.
  function Lookup(es: seq<Extension>, id: u16): (r: Option<Bytes>)
    ensures r.None? ==> forall i | 0 <= i < |es| :: es[i].id != id
    ensures r.Some? ==> exists i | 0 <= i < |es| ::
                          es[i] == Extension(id, r.value) && forall j | 0 <= j < i :: es[j].id != id
  {
    if es == [] then None else if es[0].id == id then Some(es[0].data) else Lookup(es[1..], id)
  }

  function FromConfig(c: Config, es: seq<Extension>): seq<Extension> {
    match c.strategy
    case Drop => []
    case ForceData => [Extension(c.id, c.data)]
    case Auto =>
      match Lookup(es, c.id)
      case None => []
      case Some(data) => [Extension(c.id, data)]
  }

  function Configured(cs: seq<Config>, es: seq<Extension>): seq<Extension> {
    if cs == [] then [] else Configured(cs[..|cs| - 1], es) + FromConfig(cs[|cs| - 1], es)
  }

  predicate Handled(cs: seq<Config>, id: u16) {
    exists i | 0 <= i < |cs| :: cs[i].id == id
  }

  function Unhandled(cs: seq<Config>, es: seq<Extension>): seq<Extension> {
    if es == [] then []
    else
      var e := es[|es| - 1];
      Unhandled(cs, es[..|es| - 1]) + (if Handled(cs, e.id) then [] else [e])
  }

  // The configured extensions in the order of the spec, then the others in their own order.
  function Merge(cs: seq<Config>, es: seq<Extension>): seq<Extension> {
    Configured(cs, es) + Unhandled(cs, es)
  }

  function Rewritten(h: Hello, spec: Spec): Hello {
    h.(ciphers := CipherBytes(spec.ciphers), compression := spec.compression,
       extensions := Merge(spec.extensions, h.extensions))
  }

  function Rewrite(original: Bytes, spec: Spec): Option<Bytes> {
    match Parse(original)
    case None => None
    case Some(h) => Some(Print(Rewritten(h, spec)))
  }

  // ---------- reading back what was written ----------

  lemma ReadU16Back(n: u16, t: Bytes)
    ensures ReadU16(U16(n) + t) == Got(n, t)
  {
    assert (U16(n) + t)[2..] == t;
  }

  lemma ReadBytesBack(s: Bytes, t: Bytes)
    ensures ReadBytes(s + t, |s|) == Got(s, t)
  {
    assert (s + t)[..|s|] == s && (s + t)[|s|..] == t;
  }

  lemma ReadVec8Back(s: Bytes, t: Bytes)
    requires |s| < 0x100
    ensures ReadVec8(Vec8(s) + t) == Got(s, t)
  {
    ReadBytesBack(s, t);
    assert (Vec8(s) + t)[1..] == s + t;
  }

  lemma ReadVec16Back(s: Bytes, t: Bytes)
    requires |s| < 0x1_0000
    ensures ReadVec16(Vec16(s) + t) == Got(s, t)
  {
    ReadU16Back(Size16(s), s + t);
    ReadBytesBack(s, t);
    assert Vec16(s) + t == U16(Size16(s)) + (s + t);
  }

  predicate FitsExtensions(es: seq<Extension>) {
    forall i | 0 <= i < |es| :: |es[i].data| < 0x1_0000
  }

  lemma {:induction false} ParseExtensionsBack(es: seq<Extension>)
    requires FitsExtensions(es)
    ensures ParseExtensions(ExtensionBlock(es)) == Some(es)
    decreases |es|
  {
    if es != [] {
      var e, rest := es[0], ExtensionBlock(es[1..]);
      ParseExtensionsBack(es[1..]);
      ReadVec16Back(e.data, rest);
      ReadU16Back(e.id, Vec16(e.data) + rest);
      assert ExtensionBlock(es) == U16(e.id) + (Vec16(e.data) + rest);
      assert [e] + es[1..] == es;
    }
  }

  // Every field fits the prefix that carries its size.
  predicate Fits(h: Hello) {
    && |h.random| == 32 && |h.sessionId| < 0x100 && |h.ciphers| < 0x1_0000 && |h.compression| < 0x100
    && FitsExtensions(h.extensions) && |ExtensionBlock(h.extensions)| < 0x1_0000
  }

  lemma BytesAssoc(a: Bytes, b: Bytes, c: Bytes)
    ensures (a + b) + c == a + (b + c)
  {
  }

  lemma BodyAndJunk(h: Hello, junk: Bytes)
    ensures Body(h) + junk ==
            U16(h.version) + (h.random + (Vec8(h.sessionId) + (Vec16(h.ciphers) + (Vec8(h.compression) +
            (Vec16(ExtensionBlock(h.extensions)) + junk)))))
  {
    hide U16, Vec8, Vec16, ExtensionBlock;
    var s5 := Vec16(ExtensionBlock(h.extensions));
    var s4 := Vec8(h.compression) + s5;
    var s3 := Vec16(h.ciphers) + s4;
    var s2 := Vec8(h.sessionId) + s3;
    var s1 := h.random + s2;
    BytesAssoc(U16(h.version), s1, junk);
    BytesAssoc(h.random, s2, junk);
    BytesAssoc(Vec8(h.sessionId), s3, junk);
    BytesAssoc(Vec16(h.ciphers), s4, junk);
    BytesAssoc(Vec8(h.compression), s5, junk);
  }

  lemma ParseBodyBack(h: Hello, junk: Bytes)
    requires Fits(h)
    ensures ParseBody(Body(h) + junk) == Some(h)
  {
    hide U16, Vec8, Vec16, ReadU16, ReadBytes, ReadVec8, ReadVec16, ParseExtensions, Body;
    var block := ExtensionBlock(h.extensions);
    var s5 := Vec16(block) + junk;
    var s4 := Vec8(h.compression) + s5;
    var s3 := Vec16(h.ciphers) + s4;
    var s2 := Vec8(h.sessionId) + s3;
    var s1 := h.random + s2;
    BodyAndJunk(h, junk);
    ReadU16Back(h.version, s1);
    ReadBytesBack(h.random, s2);
    ReadVec8Back(h.sessionId, s3);
    ReadVec16Back(h.ciphers, s4);
    ReadVec8Back(h.compression, s5);
    ReadVec16Back(block, junk);
    ParseExtensionsBack(h.extensions);
  }

  // ---------- what the reader accepts fits ----------

  lemma ReadU16Splits(s: Bytes)
    ensures ReadU16(s).Got? ==> s == U16(ReadU16(s).value) + ReadU16(s).rest
  {
    if |s| >= 2 {
      var high: int, low: int := s[0], s[1];
      assert (0x100 * high + low) / 0x100 == high && (0x100 * high + low) % 0x100 == low;
      assert s == [s[0], s[1]] + s[2..];
    }
  }

  lemma ReadVec16Splits(s: Bytes)
    ensures ReadVec16(s).Got? ==>
              |ReadVec16(s).value| < 0x1_0000 && s == Vec16(ReadVec16(s).value) + ReadVec16(s).rest
  {
    hide U16;
    ReadU16Splits(s);
    if ReadVec16(s).Got? {
      var n, t := ReadU16(s).value, ReadU16(s).rest;
      assert t == t[..n] + t[n..];
      assert Size16(t[..n]) == n;
    }
  }

  lemma {:induction false} ParseExtensionsSplits(s: Bytes)
    requires ParseExtensions(s).Some?
    ensures FitsExtensions(ParseExtensions(s).value) && ExtensionBlock(ParseExtensions(s).value) == s
    decreases |s|
  {
    hide U16, Vec16, ReadU16, ReadVec16;
    if s != [] {
      ReadU16Splits(s);
      ReadVec16Splits(ReadU16(s).rest);
      ReadExtensionShrinks(s);
      var e, rest := ReadExtension(s).value, ReadExtension(s).rest;
      ParseExtensionsSplits(rest);
      var es := ParseExtensions(s).value;
      assert es[1..] == ParseExtensions(rest).value;
      assert s == (U16(e.id) + Vec16(e.data)) + rest;
    }
  }

  lemma ParsedFits(s: Bytes)
    requires Parse(s).Some?
    ensures Fits(Parse(s).value)
  {
    hide ParseExtensions, ExtensionBlock;
    var s0 := s[4..];
    var s1 := ReadU16(s0).rest;
    var s2 := ReadBytes(s1, 32).rest;
    var s3 := ReadVec8(s2).rest;
    ReadVec16Splits(s3);
    var s4 := ReadVec16(s3).rest;
    var s5 := ReadVec8(s4).rest;
    ReadVec16Splits(s5);
    ParseExtensionsSplits(ReadVec16(s5).value);
  }

  // ---------- main results ----------

  // What is printed reads back unchanged exactly when every field fits its size prefix.
  lemma PrintReadsBack(h: Hello)
    ensures Parse(Print(h)) == Some(h) <==> Fits(h)
  {
    hide Body, ParseBody, Fits;
    assert Print(h)[4..] == Body(h);
    if Fits(h) {
      ParseBodyBack(h, []);
      assert Body(h) + [] == Body(h);
    }
    if Parse(Print(h)) == Some(h) { ParsedFits(Print(h)); }
  }

  lemma VecSplits(s: Bytes)
    ensures ReadVec8(s).Got? ==> |ReadVec8(s).value| < 0x100 && s == Vec8(ReadVec8(s).value) + ReadVec8(s).rest
  {
    if ReadVec8(s).Got? {
      var n := s[0];
      var t := s[1..];
      assert t == t[..n] + t[n..];
      assert Size8(t[..n]) == n;
    }
  }

  lemma BytesSplit(s: Bytes, n: nat)
    ensures ReadBytes(s, n).Got? ==> |ReadBytes(s, n).value| == n && s == ReadBytes(s, n).value + ReadBytes(s, n).rest
  {
  }

  // What is read is what would be printed, and then bytes that nobody looks at.
  lemma BodySplits(s: Bytes) returns (junk: Bytes)
    requires ParseBody(s).Some?
    ensures s == Body(ParseBody(s).value) + junk
  {
    hide U16, Vec8, Vec16, ReadU16, ReadBytes, ReadVec8, ReadVec16, ParseExtensions, ExtensionBlock;
    var h := ParseBody(s).value;
    ReadU16Splits(s);
    var s1 := ReadU16(s).rest;
    BytesSplit(s1, 32);
    var s2 := ReadBytes(s1, 32).rest;
    VecSplits(s2);
    var s3 := ReadVec8(s2).rest;
    ReadVec16Splits(s3);
    var s4 := ReadVec16(s3).rest;
    VecSplits(s4);
    var s5 := ReadVec8(s4).rest;
    ReadVec16Splits(s5);
    var block := ReadVec16(s5).value;
    junk := ReadVec16(s5).rest;
    ParseExtensionsSplits(block);
    BodyAndJunk(h, junk);
  }

  // What the reader accepts, and as what: a first byte of 1, three bytes it skips, the printed
  // fields, each within its size prefix, and any bytes after them.
  lemma ParseExactly(s: Bytes, h: Hello)
    ensures Parse(s) == Some(h) <==>
            |s| >= 4 && s[0] == 1 && Fits(h) && exists junk: Bytes :: s[4..] == Body(h) + junk
  {
    hide Body, ParseBody, Fits;
    if Parse(s) == Some(h) {
      ParsedFits(s);
      var junk := BodySplits(s[4..]);
      assert s[4..] == Body(h) + junk;
    }
    if |s| >= 4 && s[0] == 1 && Fits(h) && exists junk: Bytes :: s[4..] == Body(h) + junk {
      var junk: Bytes :| s[4..] == Body(h) + junk;
      ParseBodyBack(h, junk);
    }
  }

  // The handshake header carries the length of the body.
  lemma HeaderLength(h: Hello)
    requires Fits(h)
    ensures |Print(h)| == 4 + |Body(h)| && Print(h)[0] == 1
    ensures var p := Print(h);
            var a: int, b: int, c: int := p[1], p[2], p[3];
            0x1_0000 * a + 0x100 * b + c == |p| - 4
  {
    hide Body, Fits;
    BodyLength(h);
    U24Value(|Body(h)|);
    var p := Print(h);
    assert p[1] == U24(|Body(h)|)[0] && p[2] == U24(|Body(h)|)[1] && p[3] == U24(|Body(h)|)[2];
  }

  lemma U24Value(n: nat)
    requires n < 0x100_0000
    ensures var a: int, b: int, c: int := U24(n)[0], U24(n)[1], U24(n)[2];
            0x1_0000 * a + 0x100 * b + c == n
  {
    var q := n / 0x100;
    assert n == 0x100 * q + n % 0x100;
    assert q == 0x100 * (q / 0x100) + q % 0x100;
    assert q / 0x100 == n / 0x1_0000;
    assert n / 0x1_0000 % 0x100 == n / 0x1_0000;
  }

  lemma BodyLength(h: Hello)
    requires Fits(h)
    ensures |Body(h)| < 0x2_0400
  {
    hide ExtensionBlock, FitsExtensions;
  }

  // Two bytes as a number, the high one first.
  function Number16(s: Bytes, i: nat): nat
    requires i + 2 <= |s|
  {
    var high: int, low: int := s[i], s[i + 1];
    0x100 * high + low
  }

  lemma U16Number(n: u16, t: Bytes)
    ensures Number16(U16(n) + t, 0) == n
  {
    var s := U16(n) + t;
    assert s[0] == n / 0x100 && s[1] == n % 0x100;
  }

  // The cipher list, two bytes a suite, in the order of the spec.
  lemma {:induction false} CipherList(cs: seq<u16>)
    ensures |CipherBytes(cs)| == 2 * |cs|
    ensures forall i | 0 <= i < |cs| :: Number16(CipherBytes(cs), 2 * i) == cs[i]
  {
    hide U16;
    if cs != [] {
      var n := |cs| - 1;
      CipherList(cs[..n]);
      var before, s := CipherBytes(cs[..n]), CipherBytes(cs);
      U16Number(cs[n], []);
      LastTwoBytes(before, U16(cs[n]), cs[n]);
      forall i | 0 <= i < |cs|
        ensures Number16(s, 2 * i) == cs[i]
      {
        if i < n { assert s[2 * i] == before[2 * i] && s[2 * i + 1] == before[2 * i + 1]; }
      }
    }
  }

  lemma LastTwoBytes(a: Bytes, b: Bytes, n: u16)
    requires |b| == 2 && Number16(b + [], 0) == n
    ensures Number16(a + b, |a|) == n
  {
    assert b + [] == b && (a + b)[|a|] == b[0] && (a + b)[|a| + 1] == b[1];
  }

  lemma PrintLength(h: Hello)
    ensures |Print(h)| ==
            12 + |h.random| + |h.sessionId| + |h.ciphers| + |h.compression| + |ExtensionBlock(h.extensions)|
  {
    hide ExtensionBlock;
  }

  // Where the fields are in the printed message; `c`, `k` and `e` are the places of the ciphers,
  // the compression methods and the extensions.
  lemma WireLayout(h: Hello)
    requires Fits(h)
    ensures var p, block := Print(h), ExtensionBlock(h.extensions);
            var c := 39 + |h.sessionId|;
            var k := c + 2 + |h.ciphers|;
            var e := k + 1 + |h.compression|;
            && |p| == e + 2 + |block| && p[0] == 1
            && Number16(p, 4) == h.version && p[6..38] == h.random
            && p[38] == |h.sessionId| && p[39..c] == h.sessionId
            && Number16(p, c) == |h.ciphers| && p[c + 2..k] == h.ciphers
            && p[k] == |h.compression| && p[k + 1..e] == h.compression
            && Number16(p, e) == |block| && p[e + 2..] == block
  {
    hide ExtensionBlock, FitsExtensions, Print, Vec8, Vec16, Number16;
    PrintLength(h);
    WireFront(h);
    WireBack(Print(h), 39 + |h.sessionId|, h.ciphers, h.compression, ExtensionBlock(h.extensions));
  }

  lemma WireFront(h: Hello)
    requires |h.random| == 32 && |h.sessionId| < 0x100
    ensures var p, c := Print(h), 39 + |h.sessionId|;
            && |p| >= c && p[0] == 1
            && Number16(p, 4) == h.version && p[6..38] == h.random
            && p[38] == |h.sessionId| && p[39..c] == h.sessionId
            && p[c..] == Vec16(h.ciphers) + (Vec8(h.compression) + Vec16(ExtensionBlock(h.extensions)))
  {
    hide U16, ExtensionBlock, Print, Vec8, Vec16, Number16;
    var p := Print(h);
    var s3 := Vec16(h.ciphers) + (Vec8(h.compression) + Vec16(ExtensionBlock(h.extensions)));
    var s2 := Vec8(h.sessionId) + s3;
    BodyFollows(h);
    U16At(p, 4, h.version, h.random + s2);
    BytesAt(p, 6, h.random, s2);
    Vec8At(p, 38, h.sessionId, s3);
  }

  lemma WireBack(p: Bytes, c: nat, ciphers: Bytes, compression: Bytes, block: Bytes)
    requires c <= |p| && p[c..] == Vec16(ciphers) + (Vec8(compression) + Vec16(block))
    requires |ciphers| < 0x1_0000 && |compression| < 0x100 && |block| < 0x1_0000
    ensures var k := c + 2 + |ciphers|;
            var e := k + 1 + |compression|;
            && |p| == e + 2 + |block|
            && Number16(p, c) == |ciphers| && p[c + 2..k] == ciphers
            && p[k] == |compression| && p[k + 1..e] == compression
            && Number16(p, e) == |block| && p[e + 2..] == block
  {
    hide Vec8, Vec16, Number16;
    Vec16At(p, c, ciphers, Vec8(compression) + Vec16(block));
    var k := c + 2 + |ciphers|;
    Vec8At(p, k, compression, Vec16(block));
    var e := k + 1 + |compression|;
    assert Vec16(block) + [] == Vec16(block);
    Vec16At(p, e, block, []);
    assert p[e + 2 + |block|..] == [];
    assert p[e + 2..] == p[e + 2..e + 2 + |block|];
  }

  lemma BodyFollows(h: Hello)
    ensures |Print(h)| >= 4 && Print(h)[0] == 1 && Print(h)[4..] == Body(h)
  {
    hide Body, U24;
  }

  lemma U16At(p: Bytes, i: nat, n: u16, t: Bytes)
    requires i <= |p| && p[i..] == U16(n) + t
    ensures i + 2 <= |p| && Number16(p, i) == n && p[i + 2..] == t
  {
    U16Number(n, t);
    var s := p[i..];
    assert s[0] == p[i] && s[1] == p[i + 1] && p[i + 2..] == s[2..];
  }

  lemma BytesAt(p: Bytes, i: nat, s: Bytes, t: Bytes)
    requires i <= |p| && p[i..] == s + t
    ensures i + |s| <= |p| && p[i..i + |s|] == s && p[i + |s|..] == t
  {
    assert p[i..][..|s|] == s && p[i..][|s|..] == t;
  }

  lemma Vec8At(p: Bytes, i: nat, s: Bytes, t: Bytes)
    requires i <= |p| && p[i..] == Vec8(s) + t && |s| < 0x100
    ensures i + 1 + |s| <= |p| && p[i] == |s| && p[i + 1..i + 1 + |s|] == s && p[i + 1 + |s|..] == t
  {
    assert p[i..][0] == |s| && p[i..][1..] == s + t;
    BytesAt(p, i + 1, s, t);
  }

  lemma Vec16At(p: Bytes, i: nat, s: Bytes, t: Bytes)
    requires i <= |p| && p[i..] == Vec16(s) + t && |s| < 0x1_0000
    ensures i + 2 + |s| <= |p| && Number16(p, i) == |s| && p[i + 2..i + 2 + |s|] == s && p[i + 2 + |s|..] == t
  {
    hide U16;
    assert Vec16(s) + t == U16(|s|) + (s + t);
    U16At(p, i, |s|, s + t);
    BytesAt(p, i + 2, s, t);
  }

  lemma FirstExtension(es: seq<Extension>)
    requires es != [] && FitsExtensions(es)
    ensures |es[0].data| < 0x1_0000
    ensures ExtensionBlock(es) == U16(es[0].id) + (Vec16(es[0].data) + ExtensionBlock(es[1..]))
  {
    hide U16, Vec16;
  }

  // The first extension of a block: id, length and data, then the others.
  lemma ExtensionLayout(es: seq<Extension>)
    requires es != [] && FitsExtensions(es)
    ensures var b, n := ExtensionBlock(es), |es[0].data|;
            && |b| >= 4 + n && Number16(b, 0) == es[0].id && Number16(b, 2) == n
            && b[4..4 + n] == es[0].data && b[4 + n..] == ExtensionBlock(es[1..])
  {
    hide U16, Vec16, ExtensionBlock, FitsExtensions, Number16;
    var b, e, rest := ExtensionBlock(es), es[0], ExtensionBlock(es[1..]);
    FirstExtension(es);
    assert b[0..] == b;
    U16At(b, 0, e.id, Vec16(e.data) + rest);
    Vec16At(b, 2, e.data, rest);
  }

  // A rewritten message keeps version, random and session id, has the cipher suites, compression
  // methods and merged extensions of the spec, and any reader sees it so.
  lemma RewriteMeaning(original: Bytes, spec: Spec)
    requires Parse(original).Some? && Fits(Rewritten(Parse(original).value, spec))
    ensures var h := Parse(original).value;
            var out := Rewrite(original, spec);
            && out.Some? && Parse(out.value).Some?
            && var r := Parse(out.value).value;
            && r.version == h.version && r.random == h.random && r.sessionId == h.sessionId
            && |r.ciphers| == 2 * |spec.ciphers|
            && (forall i | 0 <= i < |spec.ciphers| :: Number16(r.ciphers, 2 * i) == spec.ciphers[i])
            && r.compression == spec.compression
            && r.extensions == Configured(spec.extensions, h.extensions) + Unhandled(spec.extensions, h.extensions)
  {
    hide Parse, Print, Fits, CipherBytes, Configured, Unhandled, Number16;
    PrintReadsBack(Rewritten(Parse(original).value, spec));
    CipherList(spec.ciphers);
  }

  // No id is both taken over from the message and given by the spec.
  ghost predicate Consistent(cs: seq<Config>) {
    forall i, j | 0 <= i < |cs| && 0 <= j < |cs| && cs[i].strategy == Auto && cs[j].strategy == ForceData ::
      cs[i].id != cs[j].id
  }

  lemma {:induction false} LookupAppend(a: seq<Extension>, b: seq<Extension>, id: u16)
    ensures Lookup(a + b, id) == if Lookup(a, id).Some? then Lookup(a, id) else Lookup(b, id)
  {
    if a == [] {
      assert a + b == b;
    } else {
      assert (a + b)[1..] == a[1..] + b;
      LookupAppend(a[1..], b, id);
    }
  }

  lemma LookupOne(e: Extension, id: u16)
    ensures Lookup([e], id) == (if e.id == id then Some(e.data) else None) && Lookup([], id) == None
  {
    assert [e][1..] == [];
  }

  lemma LookupFromConfig(c: Config, es: seq<Extension>, id: u16)
    ensures Lookup(FromConfig(c, es), id) ==
            if c.id != id || c.strategy == Drop then None
            else if c.strategy == ForceData then Some(c.data)
            else Lookup(es, id)
  {
    var last := FromConfig(c, es);
    if last != [] { assert last[1..] == []; }
  }

  // What the configured extensions hold for an id that some Auto entry takes over.
  lemma {:induction false} LookupConfigured(cs: seq<Config>, es: seq<Extension>, id: u16)
    requires forall i | 0 <= i < |cs| && cs[i].id == id :: cs[i].strategy != ForceData
    ensures Lookup(Configured(cs, es), id) ==
            if exists i | 0 <= i < |cs| :: cs[i].id == id && cs[i].strategy == Auto then Lookup(es, id) else None
  {
    hide FromConfig, Lookup;
    LookupOne(Extension(0, []), id);
    if cs != [] {
      var n := |cs| - 1;
      LookupConfigured(cs[..n], es, id);
      LookupAppend(Configured(cs[..n], es), FromConfig(cs[n], es), id);
      LookupFromConfig(cs[n], es, id);
    }
  }

  lemma {:induction false} LookupUnhandled(cs: seq<Config>, es: seq<Extension>, id: u16)
    requires Handled(cs, id)
    ensures Lookup(Unhandled(cs, es), id) == None
  {
    if es != [] {
      var n := |es| - 1;
      LookupUnhandled(cs, es[..n], id);
      var tail := if Handled(cs, es[n].id) then [] else [es[n]];
      LookupAppend(Unhandled(cs, es[..n]), tail, id);
    }
  }

  lemma {:induction false} LookupKept(cs: seq<Config>, es: seq<Extension>, id: u16)
    requires !Handled(cs, id)
    ensures Lookup(Unhandled(cs, es), id) == Lookup(es, id)
  {
    hide Lookup, Handled;
    if es != [] {
      var n := |es| - 1;
      LookupKept(cs, es[..n], id);
      var tail := if Handled(cs, es[n].id) then [] else [es[n]];
      LookupOne(es[n], id);
      LookupAppend(Unhandled(cs, es[..n]), tail, id);
      LookupAppend(es[..n], [es[n]], id);
      assert es == es[..n] + [es[n]];
    }
  }

  lemma {:induction false} LookupForced(cs: seq<Config>, es: seq<Extension>, j: nat)
    requires j < |cs| && cs[j].strategy == ForceData
    requires forall i | 0 <= i < |cs| && cs[i].id == cs[j].id :: cs[i].strategy != Auto
    requires forall i | 0 <= i < j && cs[i].id == cs[j].id :: cs[i].strategy == Drop
    ensures Lookup(Configured(cs, es), cs[j].id) == Some(cs[j].data)
  {
    hide FromConfig, Lookup;
    var n := |cs| - 1;
    LookupAppend(Configured(cs[..n], es), FromConfig(cs[n], es), cs[j].id);
    LookupFromConfig(cs[n], es, cs[j].id);
    if j < n {
      LookupForced(cs[..n], es, j);
    } else {
      LookupConfigured(cs[..n], es, cs[j].id);
    }
  }

  // What a reader of the rewritten message finds under an id: its own data if the spec says
  // nothing about it or takes it over, nothing if the spec only drops it, and the spec's data if
  // the spec forces it.
  lemma MergedExtension(cs: seq<Config>, es: seq<Extension>, id: u16, j: nat)
    requires Consistent(cs)
    ensures !Handled(cs, id) ==> Lookup(Merge(cs, es), id) == Lookup(es, id)
    ensures j < |cs| && cs[j] == Config(id, Auto, cs[j].data) ==> Lookup(Merge(cs, es), id) == Lookup(es, id)
    ensures Handled(cs, id) && (forall i | 0 <= i < |cs| && cs[i].id == id :: cs[i].strategy == Drop) ==>
              Lookup(Merge(cs, es), id) == None
    ensures j < |cs| && cs[j] == Config(id, ForceData, cs[j].data)
            && (forall i | 0 <= i < j && cs[i].id == id :: cs[i].strategy == Drop) ==>
              Lookup(Merge(cs, es), id) == Some(cs[j].data)
  {
    hide Lookup, Configured, Unhandled;
    LookupAppend(Configured(cs, es), Unhandled(cs, es), id);
    if !Handled(cs, id) {
      LookupConfigured(cs, es, id);
      LookupKept(cs, es, id);
    } else {
      LookupUnhandled(cs, es, id);
      if forall i | 0 <= i < |cs| && cs[i].id == id :: cs[i].strategy != ForceData {
        LookupConfigured(cs, es, id);
      }
      if j < |cs| && cs[j].id == id && cs[j].strategy == ForceData
         && forall i | 0 <= i < j && cs[i].id == id :: cs[i].strategy == Drop
      {
        LookupForced(cs, es, j);
      }
    }
  }

  // An Auto entry finds in the merged extensions what it found in the original ones.
  lemma LookupMerged(cs: seq<Config>, es: seq<Extension>, i: nat)
    requires Consistent(cs) && i < |cs| && cs[i].strategy == Auto
    ensures Lookup(Merge(cs, es), cs[i].id) == Lookup(es, cs[i].id)
  {
    hide Lookup;
    var id := cs[i].id;
    LookupConfigured(cs, es, id);
    assert Handled(cs, id);
    LookupUnhandled(cs, es, id);
    LookupAppend(Configured(cs, es), Unhandled(cs, es), id);
  }

  lemma {:induction false} ConfiguredAgain(all: seq<Config>, k: nat, es: seq<Extension>)
    requires Consistent(all) && k <= |all|
    ensures Configured(all[..k], Merge(all, es)) == Configured(all[..k], es)
    decreases k
  {
    hide Lookup, Merge, Consistent;
    if k > 0 {
      ConfiguredAgain(all, k - 1, es);
      assert all[..k][..k - 1] == all[..k - 1];
      if all[k - 1].strategy == Auto { LookupMerged(all, es, k - 1); }
    }
  }

  lemma {:induction false} ConfiguredHandled(cs: seq<Config>, k: nat, es: seq<Extension>)
    requires k <= |cs|
    ensures forall i | 0 <= i < |Configured(cs[..k], es)| :: Handled(cs, Configured(cs[..k], es)[i].id)
    decreases k
  {
    if k > 0 {
      ConfiguredHandled(cs, k - 1, es);
      assert cs[..k][..k - 1] == cs[..k - 1];
      assert Handled(cs, cs[k - 1].id);
    }
  }

  lemma {:induction false} UnhandledAppend(cs: seq<Config>, a: seq<Extension>, b: seq<Extension>)
    ensures Unhandled(cs, a + b) == Unhandled(cs, a) + Unhandled(cs, b)
  {
    if b == [] {
      assert a + b == a;
    } else {
      var n := |b| - 1;
      assert (a + b)[..|a + b| - 1] == a + b[..n];
      UnhandledAppend(cs, a, b[..n]);
    }
  }

  lemma {:induction false} UnhandledNone(cs: seq<Config>, es: seq<Extension>)
    requires forall i | 0 <= i < |es| :: Handled(cs, es[i].id)
    ensures Unhandled(cs, es) == []
  {
    if es != [] { UnhandledNone(cs, es[..|es| - 1]); }
  }

  lemma {:induction false} UnhandledTwice(cs: seq<Config>, es: seq<Extension>)
    ensures Unhandled(cs, Unhandled(cs, es)) == Unhandled(cs, es)
  {
    if es != [] {
      var n := |es| - 1;
      UnhandledTwice(cs, es[..n]);
      var tail := if Handled(cs, es[n].id) then [] else [es[n]];
      UnhandledAppend(cs, Unhandled(cs, es[..n]), tail);
      if tail != [] { assert tail[..0] == []; }
    }
  }

  lemma {:induction false} ConfiguredAppend(a: seq<Config>, b: seq<Config>, es: seq<Extension>)
    ensures Configured(a + b, es) == Configured(a, es) + Configured(b, es)
  {
    hide FromConfig;
    if b == [] {
      assert a + b == a;
    } else {
      var n := |b| - 1;
      assert (a + b)[..|a + b| - 1] == a + b[..n];
      ConfiguredAppend(a, b[..n], es);
      ExtensionsAssoc(Configured(a, es), Configured(b[..n], es), FromConfig(b[n], es));
    }
  }

  lemma ExtensionsAssoc(a: seq<Extension>, b: seq<Extension>, c: seq<Extension>)
    ensures (a + b) + c == a + (b + c)
  {
  }

  // What each entry of the spec and each extension of the message contribute, wherever they stand:
  // configured ones in the order of the spec, each from the first extension with its id, and the
  // others in the order of the message.
  lemma MergeOrder(cs: seq<Config>, c: Config, cs': seq<Config>, es: seq<Extension>, e: Extension, es': seq<Extension>)
    ensures Configured(cs + [c] + cs', es) ==
            Configured(cs, es) +
            (if c.strategy == ForceData then [Extension(c.id, c.data)]
             else if c.strategy == Auto && Lookup(es, c.id).Some? then [Extension(c.id, Lookup(es, c.id).value)]
             else []) +
            Configured(cs', es)
    ensures Unhandled(cs, es + [e] + es') ==
            Unhandled(cs, es) +
            (if exists i | 0 <= i < |cs| :: cs[i].id == e.id then [] else [e]) +
            Unhandled(cs, es')
  {
    hide Lookup;
    ConfiguredAppend(cs + [c], cs', es);
    ConfiguredAppend(cs, [c], es);
    assert [c][..0] == [] && Configured([c], es) == FromConfig(c, es);
    UnhandledAppend(cs, es + [e], es');
    UnhandledAppend(cs, es, [e]);
    assert [e][..0] == [] && Unhandled(cs, [e]) == if Handled(cs, e.id) then [] else [e];
  }

  lemma MergeTwice(cs: seq<Config>, es: seq<Extension>)
    requires Consistent(cs)
    ensures Merge(cs, Merge(cs, es)) == Merge(cs, es)
  {
    hide Configured, Unhandled, Consistent, Handled;
    assert cs[..|cs|] == cs;
    ConfiguredAgain(cs, |cs|, es);
    ConfiguredHandled(cs, |cs|, es);
    UnhandledAppend(cs, Configured(cs, es), Unhandled(cs, es));
    UnhandledNone(cs, Configured(cs, es));
    UnhandledTwice(cs, es);
  }

  lemma {:induction false} ForcedPresent(cs: seq<Config>, es: seq<Extension>, j: nat)
    requires j < |cs| && cs[j].strategy == ForceData
    ensures Lookup(Configured(cs, es), cs[j].id).Some?
  {
    hide FromConfig, Lookup;
    var n := |cs| - 1;
    LookupAppend(Configured(cs[..n], es), FromConfig(cs[n], es), cs[j].id);
    LookupFromConfig(cs[n], es, cs[j].id);
    if j < n { ForcedPresent(cs[..n], es, j); }
  }

  lemma {:induction false} BlockAppend(a: seq<Extension>, b: seq<Extension>)
    ensures ExtensionBlock(a + b) == ExtensionBlock(a) + ExtensionBlock(b)
  {
    if a == [] {
      assert a + b == b;
    } else {
      assert (a + b)[1..] == a[1..] + b;
      BlockAppend(a[1..], b);
    }
  }

  lemma FitsAppend(a: seq<Extension>, b: seq<Extension>)
    ensures FitsExtensions(a + b) <==> FitsExtensions(a) && FitsExtensions(b)
  {
    if FitsExtensions(a + b) {
      assert forall i | 0 <= i < |a| :: (a + b)[i] == a[i];
      assert forall i | 0 <= i < |b| :: (a + b)[|a| + i] == b[i];
    }
  }

  lemma EntryGrows(c: Config, es: seq<Extension>)
    ensures |ExtensionBlock(FromConfig(c, es))| >= |ExtensionBlock(FromConfig(c, []))|
    ensures c.strategy == Auto && Lookup(es, c.id).Some? ==>
              |ExtensionBlock(FromConfig(c, es))| > |ExtensionBlock(FromConfig(c, []))|
    ensures FitsExtensions(FromConfig(c, es)) ==> FitsExtensions(FromConfig(c, []))
  {
    if c.strategy == Auto { assert FromConfig(c, []) == []; }
  }

  // The configured part of a message is never smaller than that of the empty one, and larger where
  // an Auto entry finds something.
  lemma {:induction false} BlockGrows(cs: seq<Config>, es: seq<Extension>, i: nat)
    ensures |ExtensionBlock(Configured(cs, es))| >= |ExtensionBlock(Configured(cs, []))|
    ensures i < |cs| && cs[i].strategy == Auto && Lookup(es, cs[i].id).Some? ==>
              |ExtensionBlock(Configured(cs, es))| > |ExtensionBlock(Configured(cs, []))|
    ensures FitsExtensions(Configured(cs, es)) ==> FitsExtensions(Configured(cs, []))
  {
    hide Lookup, ExtensionBlock, FitsExtensions, FromConfig;
    if cs != [] {
      var n := |cs| - 1;
      BlockGrows(cs[..n], es, i);
      EntryGrows(cs[n], es);
      var a, b := Configured(cs[..n], es), Configured(cs[..n], []);
      BlockAppend(a, FromConfig(cs[n], es));
      BlockAppend(b, FromConfig(cs[n], []));
      FitsAppend(a, FromConfig(cs[n], es));
      FitsAppend(b, FromConfig(cs[n], []));
    }
  }

  // Rewriting the extensions twice is rewriting them once, for every message, exactly when no id
  // is both taken over and forced.
  lemma MergeIdempotent(cs: seq<Config>)
    ensures (forall es :: Merge(cs, Merge(cs, es)) == Merge(cs, es)) <==> Consistent(cs)
  {
    if Consistent(cs) {
      forall es
        ensures Merge(cs, Merge(cs, es)) == Merge(cs, es)
      {
        MergeTwice(cs, es);
      }
    } else {
      var i, j :| 0 <= i < |cs| && 0 <= j < |cs| && cs[i].strategy == Auto && cs[j].strategy == ForceData
                  && cs[i].id == cs[j].id;
      var once := Merge(cs, []);
      assert once == Configured(cs, []);
      ForcedPresent(cs, [], j);
      BlockGrows(cs, once, i);
      BlockAppend(Configured(cs, once), Unhandled(cs, once));
      assert Merge(cs, once) != once;
    }
  }

  // For a consistent spec, rewriting a message twice gives the same bytes as rewriting it once.
  lemma RewriteTwice(original: Bytes, spec: Spec)
    requires Parse(original).Some? && Fits(Rewritten(Parse(original).value, spec))
    requires Consistent(spec.extensions)
    ensures Rewrite(original, spec).Some?
    ensures Rewrite(Rewrite(original, spec).value, spec) == Rewrite(original, spec)
  {
    hide Parse, Print, Fits, Merge;
    var h := Parse(original).value;
    PrintReadsBack(Rewritten(h, spec));
    MergeTwice(spec.extensions, h.extensions);
  }

  // A message with nothing in it.
  const EMPTY_HELLO: Hello := Hello(0, seq(32, _ => 0), [], [], [], [])

  // A spec that fits some message fits the empty one.
  lemma EmptyFitsFirst(h: Hello, spec: Spec)
    requires Fits(Rewritten(h, spec))
    ensures Fits(Rewritten(EMPTY_HELLO, spec))
  {
    hide ExtensionBlock, FitsExtensions, Configured, Unhandled, CipherBytes;
    var cs, es := spec.extensions, h.extensions;
    BlockGrows(cs, es, 0);
    BlockAppend(Configured(cs, es), Unhandled(cs, es));
    FitsAppend(Configured(cs, es), Unhandled(cs, es));
    MergeEmpty(cs);
  }

  lemma MergeEmpty(cs: seq<Config>)
    ensures Merge(cs, []) == Configured(cs, [])
  {
    hide Configured;
  }

  // An id that is both taken over and forced comes out once more each time.
  lemma RewriteGrows(spec: Spec)
    requires !Consistent(spec.extensions) && Fits(Rewritten(EMPTY_HELLO, spec))
    ensures var original := Print(EMPTY_HELLO);
            && Parse(original) == Some(EMPTY_HELLO)
            && var once := Rewrite(original, spec);
            && once.Some?
            && var twice := Rewrite(once.value, spec);
            && twice.Some? && |twice.value| > |once.value|
  {
    hide Parse, Print, Fits, Lookup, ExtensionBlock, Configured, Unhandled, CipherBytes;
    var cs := spec.extensions;
    var i, j :| 0 <= i < |cs| && 0 <= j < |cs| && cs[i].strategy == Auto && cs[j].strategy == ForceData
                && cs[i].id == cs[j].id;
    EmptyFits();
    PrintReadsBack(EMPTY_HELLO);
    var h := Rewritten(EMPTY_HELLO, spec);
    PrintReadsBack(h);
    MergeEmpty(cs);
    ForcedPresent(cs, [], j);
    BlockGrows(cs, h.extensions, i);
    BlockAppend(Configured(cs, h.extensions), Unhandled(cs, h.extensions));
    PrintLength(h);
    PrintLength(Rewritten(h, spec));
  }

  lemma EmptyFits()
    ensures Fits(EMPTY_HELLO)
  {
  }

  // Rewriting a message twice is rewriting it once, for every message the rewritten form of which
  // fits its size prefixes, exactly when no id is both taken over and forced. (A spec that does not
  // fit the empty message fits none.)
  lemma RewriteIdempotent(spec: Spec)
    ensures (forall original: Bytes |
               Parse(original).Some? && Fits(Rewritten(Parse(original).value, spec)) ::
               && Rewrite(original, spec).Some?
               && Rewrite(Rewrite(original, spec).value, spec) == Rewrite(original, spec))
            <==> Consistent(spec.extensions) || !Fits(Rewritten(EMPTY_HELLO, spec))
  {
    hide Parse, Rewrite, Rewritten, Fits, Consistent;
    if Consistent(spec.extensions) || !Fits(Rewritten(EMPTY_HELLO, spec)) {
      forall original: Bytes | Parse(original).Some? && Fits(Rewritten(Parse(original).value, spec))
        ensures Rewrite(original, spec).Some?
        ensures Rewrite(Rewrite(original, spec).value, spec) == Rewrite(original, spec)
      {
        EmptyFitsFirst(Parse(original).value, spec);
        RewriteTwice(original, spec);
      }
    } else {
      RewriteGrows(spec);
    }
  }

  // Take over extension 0 and force it: the second rewriting of the empty message differs.
  lemma RewriteTwiceDiffers()
    ensures var spec := Spec([], [0], [Config(0, Auto, []), Config(0, ForceData, [])]);
            var once := Rewrite(Print(EMPTY_HELLO), spec);
            once.Some? && Rewrite(once.value, spec) != once
  {
    var cs := [Config(0, Auto, []), Config(0, ForceData, [])];
    var spec := Spec([], [0], cs);
    assert cs[0].strategy == Auto && cs[1].strategy == ForceData && cs[0].id == cs[1].id;
    assert cs[..1] == [cs[0]] && [cs[0]][..0] == [];
    assert Configured([cs[0]], []) == [];
    assert Configured(cs, []) == [Extension(0, [])];
    MergeEmpty(cs);
    assert |ExtensionBlock([Extension(0, [])])| == 4;
    assert Fits(Rewritten(EMPTY_HELLO, spec));
    RewriteGrows(spec);
  }

  // ---------- the source's loops ----------

  method ReadExtensions(block: Bytes) returns (r: Option<seq<Extension>>)
    ensures r == ParseExtensions(block)
  {
    var es := [];
    var rest := block;
    ReadSoFar([], block);
    while |rest| > 0
      invariant ParseExtensions(block) == Prepend(es, ParseExtensions(rest))
      decreases |rest|
    {
      ReadExtensionShrinks(rest);
      var id := ReadU16(rest);
      if id.NoData? {
        return None;
      }
      var data := ReadVec16(id.rest);
      if data.NoData? {
        return None;
      }
      var e := Extension(id.value, data.value);
      PrependMore(es, e, ParseExtensions(data.rest));
      es := es + [e];
      rest := data.rest;
    }
    assert rest == [];
    assert es + [] == es;
    r := Some(es);
  }

  function Prepend(es: seq<Extension>, r: Option<seq<Extension>>): Option<seq<Extension>> {
    if r.None? then None else Some(es + r.value)
  }

  lemma ReadSoFar(es: seq<Extension>, block: Bytes)
    requires es == []
    ensures ParseExtensions(block) == Prepend(es, ParseExtensions(block))
  {
    if ParseExtensions(block).Some? { assert es + ParseExtensions(block).value == ParseExtensions(block).value; }
  }

  lemma PrependMore(es: seq<Extension>, e: Extension, r: Option<seq<Extension>>)
    ensures Prepend(es + [e], r) == Prepend(es, Prepend([e], r))
  {
    if r.Some? { assert es + ([e] + r.value) == (es + [e]) + r.value; }
  }

  // The writer: a buffer that grows, and whose length bytes are patched once known.
  class Writer {
    var buffer: Bytes

    constructor ()
      ensures buffer == []
    {
      buffer := [];
    }

    method WriteU8(b: byte)
      modifies this
      ensures buffer == old(buffer) + [b]
    {
      buffer := buffer + [b];
    }

    method WriteBytes(s: Bytes)
      modifies this
      ensures buffer == old(buffer) + s
    {
      buffer := buffer + s;
    }

    method WriteU16(n: u16)
      modifies this
      ensures buffer == old(buffer) + U16(n)
    {
      buffer := buffer + U16(n);
    }

    // Patch a two-byte length written earlier as zero.
    method PatchU16(pos: nat)
      requires pos + 2 <= |buffer|
      modifies this
      ensures buffer == old(buffer)[..pos] + Vec16(old(buffer)[pos + 2..])
    {
      var n := |buffer| - (pos + 2);
      ghost var before := buffer;
      buffer := buffer[pos := n / 0x100 % 0x100];
      buffer := buffer[pos + 1 := n % 0x100];
      Size16Bytes(n);
      assert buffer == before[..pos] + [n / 0x100 % 0x100, n % 0x100] + before[pos + 2..];
    }

    method WriteCiphers(cs: seq<u16>)
      modifies this
      ensures buffer == old(buffer) + Vec16(CipherBytes(cs))
    {
      var pos := |buffer|;
      WriteU16(0);
      ghost var head := buffer;
      for i := 0 to |cs|
        invariant buffer == head + CipherBytes(cs[..i])
      {
        WriteU16(cs[i]);
        assert cs[..i + 1][..i] == cs[..i];
      }
      assert cs[..|cs|] == cs;
      assert buffer[pos + 2..] == CipherBytes(cs);
      PatchU16(pos);
    }

    method WriteExtension(e: Extension)
      modifies this
      ensures buffer == old(buffer) + ExtBytes(e)
    {
      WriteU16(e.id);
      WriteU16(Size16(e.data));
      WriteBytes(e.data);
    }

    method WriteConfig(c: Config, es: seq<Extension>)
      modifies this
      ensures buffer == old(buffer) + ExtensionBlock(FromConfig(c, es))
    {
      if c.strategy == Drop {
        return;
      }
      var payload := if c.strategy == ForceData then Some(c.data) else Lookup(es, c.id);
      if payload.Some? {
        OneBlock(Extension(c.id, payload.value));
        WriteExtension(Extension(c.id, payload.value));
      }
    }

    method WriteConfigured(cs: seq<Config>, es: seq<Extension>) returns (handled: seq<u16>)
      modifies this
      ensures buffer == old(buffer) + ExtensionBlock(Configured(cs, es))
      ensures |handled| == |cs| && forall i | 0 <= i < |cs| :: handled[i] == cs[i].id
    {
      hide FromConfig, ExtensionBlock;
      handled := [];
      NoBlock(cs, es);
      for i := 0 to |cs|
        invariant buffer == old(buffer) + ExtensionBlock(Configured(cs[..i], es))
        invariant |handled| == i && forall k | 0 <= k < i :: handled[k] == cs[k].id
      {
        handled := handled + [cs[i].id];
        assert cs[..i + 1][..i] == cs[..i];
        BlockAppend(Configured(cs[..i], es), FromConfig(cs[i], es));
        WriteConfig(cs[i], es);
      }
      assert cs[..|cs|] == cs;
    }

    method WriteUnhandled(cs: seq<Config>, es: seq<Extension>, handled: seq<u16>)
      requires |handled| == |cs| && forall i | 0 <= i < |cs| :: handled[i] == cs[i].id
      modifies this
      ensures buffer == old(buffer) + ExtensionBlock(Unhandled(cs, es))
    {
      hide ExtensionBlock;
      NoBlock(cs, es);
      for i := 0 to |es|
        invariant buffer == old(buffer) + ExtensionBlock(Unhandled(cs, es[..i]))
      {
        var e := es[i];
        assert es[..i + 1][..i] == es[..i];
        HandledIds(cs, handled, e.id);
        BlockAppend(Unhandled(cs, es[..i]), if e.id in handled then [] else [e]);
        OneBlock(e);
        if e.id !in handled {
          WriteExtension(e);
        }
      }
      assert es[..|es|] == es;
    }

    method WriteExtensions(cs: seq<Config>, es: seq<Extension>)
      modifies this
      ensures buffer == old(buffer) + Vec16(ExtensionBlock(Merge(cs, es)))
    {
      hide ExtensionBlock, Configured, Unhandled, Vec16;
      var pos := |buffer|;
      WriteU16(0);
      var handled := WriteConfigured(cs, es);
      WriteUnhandled(cs, es, handled);
      BlockAppend(Configured(cs, es), Unhandled(cs, es));
      assert buffer[pos + 2..] == ExtensionBlock(Merge(cs, es));
      PatchU16(pos);
    }

    method WriteHello(h: Hello, spec: Spec)
      requires |h.sessionId| < 0x100
      modifies this
      ensures buffer == old(buffer) + Body(Rewritten(h, spec))
    {
      hide U16, Vec8, Vec16, ExtensionBlock, Merge, CipherBytes;
      WriteU16(h.version);
      WriteBytes(h.random);
      WriteVec8(h.sessionId);
      WriteCiphers(spec.ciphers);
      WriteVec8(spec.compression);
      WriteExtensions(spec.extensions, h.extensions);
    }

    method WriteVec8(s: Bytes)
      modifies this
      ensures buffer == old(buffer) + Vec8(s)
    {
      WriteU8(Size8(s));
      WriteBytes(s);
    }
  }

  lemma Size16Bytes(n: nat)
    ensures n % 0x1_0000 / 0x100 == n / 0x100 % 0x100 && n % 0x1_0000 % 0x100 == n % 0x100
  {
    var q, r := n / 0x1_0000, n % 0x1_0000;
    var high, low := r / 0x100, r % 0x100;
    assert n == 0x100 * (0x100 * q + high) + low;
    Bits.DivMod256(n, 0x100 * q + high, low);
    Bits.DivMod256(0x100 * q + high, q, high);
  }

  lemma OneBlock(e: Extension)
    ensures ExtensionBlock([e]) == ExtBytes(e) && ExtensionBlock([]) == []
  {
    assert [e][1..] == [];
  }

  lemma NoBlock(cs: seq<Config>, es: seq<Extension>)
    ensures ExtensionBlock(Configured(cs[..0], es)) == [] && ExtensionBlock(Unhandled(cs, es[..0])) == []
  {
  }

  lemma HandledIds(cs: seq<Config>, handled: seq<u16>, id: u16)
    requires |handled| == |cs| && forall i | 0 <= i < |cs| :: handled[i] == cs[i].id
    ensures id in handled <==> Handled(cs, id)
  {
    if Handled(cs, id) {
      var i :| 0 <= i < |cs| && cs[i].id == id;
      assert handled[i] == id;
    }
  }

  method ReadHello(original: Bytes) returns (r: Option<Hello>)
    ensures r == Parse(original)
  {
    hide ReadU16, ReadBytes, ReadVec8, ReadVec16, ParseExtensions;
    if |original| < 4 || original[0] != 1 {
      return None;
    }
    var version := ReadU16(original[4..]);
    if version.NoData? { return None; }
    var random := ReadBytes(version.rest, 32);
    if random.NoData? { return None; }
    var sessionId := ReadVec8(random.rest);
    if sessionId.NoData? { return None; }
    var ciphers := ReadVec16(sessionId.rest);
    if ciphers.NoData? { return None; }
    var compression := ReadVec8(ciphers.rest);
    if compression.NoData? { return None; }
    var block := ReadVec16(compression.rest);
    if block.NoData? { return None; }
    var es := ReadExtensions(block.value);
    if es.None? { return None; }
    r := Some(Hello(version.value, random.value, sessionId.value, ciphers.value, compression.value, es.value));
  }

  method RewriteHello(original: Bytes, spec: Spec) returns (r: Option<Bytes>)
    ensures r == Rewrite(original, spec)
  {
    hide Parse, Fits, Body;
    var h := ReadHello(original);
    if h.None? {
      return None;
    }
    SessionIdFits(original);
    var writer := new Writer();
    writer.WriteU8(1);
    writer.WriteBytes([0, 0, 0]);
    writer.WriteHello(h.value, spec);
    var out := writer.buffer;
    assert out[4..] == Body(Rewritten(h.value, spec));
    out := PatchU24(out);
    r := Some(out);
  }

  lemma SessionIdFits(s: Bytes)
    requires Parse(s).Some?
    ensures |Parse(s).value.sessionId| < 0x100
  {
    hide Parse;
    ParsedFits(s);
  }

  method PatchU24(s: Bytes) returns (out: Bytes)
    requires |s| >= 4 && s[0] == 1
    ensures out == [1] + U24(|s| - 4) + s[4..]
  {
    var n := |s| - 4;
    out := s;
    out := out[1 := n / 0x1_0000 % 0x100];
    out := out[2 := n / 0x100 % 0x100];
    out := out[3 := n % 0x100];
  }
}
