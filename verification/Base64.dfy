/** `Base64::encode`, `decode` and `decode_bin` of util.cpp (section 4 of RFC 4648): the loops over
    3- and 4-byte scratch arrays against the 24-bit groups they regroup. */
module Base64 {
  import Bits

  type byte = x: int | 0 <= x < 0x100
  type sextet = x: int | 0 <= x < 64

  // The 64 characters of the alphabet, in order.
  function Symbol(v: sextet): char {
    if v < 26 then 'A' + v as char
    else if v < 52 then 'a' + (v - 26) as char
    else if v < 62 then '0' + (v - 52) as char
    else if v == 62 then '+' else '/'
  }

  predicate IsBase64(c: char) {
    'A' <= c <= 'Z' || 'a' <= c <= 'z' || '0' <= c <= '9' || c == '+' || c == '/'
  }

  // The place of a character in the alphabet.
  function ValueOf(c: char): sextet
    requires IsBase64(c)
  {
    if 'A' <= c <= 'Z' then c as int - 'A' as int
    else if 'a' <= c <= 'z' then c as int - 'a' as int + 26
    else if '0' <= c <= '9' then c as int - '0' as int + 52
    else if c == '+' then 62 else 63
  }

  lemma SymbolValue(v: sextet)
    ensures IsBase64(Symbol(v)) && ValueOf(Symbol(v)) == v && Symbol(v) != '='
  {
  }

  // The alphabet of section 4 of RFC 4648.
  const CAPITALS := "ABCDEFGHIJKLMNOPQRSTUVWXYZ"
  const SMALL := "abcdefghijklmnopqrstuvwxyz"
  const DIGITS := "0123456789"

  function Alphabet(): string { CAPITALS + (SMALL + (DIGITS + "+/")) }

  lemma Capital(v: nat)
    requires v < 26
    ensures CAPITALS[v] as int == 'A' as int + v
  {
  }

  lemma Small(v: nat)
    requires v < 26
    ensures SMALL[v] as int == 'a' as int + v
  {
  }

  lemma Digit(v: nat)
    requires v < 10
    ensures DIGITS[v] as int == '0' as int + v
  {
  }

  lemma Place(a: string, b: string, c: string, d: string, v: nat)
    requires |a| == |b| == 26 && |c| == 10 && |d| == 2 && v < 64
    ensures (a + (b + (c + d)))[v] ==
            if v < 26 then a[v] else if v < 52 then b[v - 26] else if v < 62 then c[v - 52] else d[v - 62]
  {
  }

  // The symbol of v is the v-th character.
  lemma SymbolInAlphabet(v: sextet)
    ensures |Alphabet()| == 64 && Symbol(v) == Alphabet()[v]
  {
    Place(CAPITALS, SMALL, DIGITS, "+/", v);
    if v < 26 {
      Capital(v);
    } else if v < 52 {
      Small(v - 26);
    } else if v < 62 {
      Digit(v - 52);
    }
  }

  // ---------- reference: 24-bit groups ----------

  // Three bytes, or four sextets, as one number.
  function Of3(a: byte, b: byte, c: byte): nat {
    var x: int, y: int, z: int := a, b, c;
    0x1_0000 * x + 0x100 * y + z
  }

  function Of4(a: sextet, b: sextet, c: sextet, d: sextet): nat {
    var x: int, y: int, z: int, w: int := a, b, c, d;
    0x4_0000 * x + 0x1000 * y + 64 * z + w
  }

  function Sextets(n: nat): (r: seq<sextet>)
    ensures |r| == 4
  {
    [n / 64 / 64 / 64 % 64, n / 64 / 64 % 64, n / 64 % 64, n % 64]
  }

  function Octets(n: nat): (r: seq<byte>)
    ensures |r| == 3
  {
    [n / 0x100 / 0x100 % 0x100, n / 0x100 % 0x100, n % 0x100]
  }

  function Symbols(vs: seq<sextet>): string {
    if vs == [] then "" else [Symbol(vs[0])] + Symbols(vs[1..])
  }

  function Encode(s: seq<byte>): string {
    if |s| == 0 then ""
    else if |s| == 1 then Symbols(Sextets(Of3(s[0], 0, 0))[..2]) + "=="
    else if |s| == 2 then Symbols(Sextets(Of3(s[0], s[1], 0))[..3]) + "="
    else Symbols(Sextets(Of3(s[0], s[1], s[2]))) + Encode(s[3..])
  }

  // Bits that do not fill a byte are dropped.
  function DecodeValues(vs: seq<sextet>): seq<byte> {
    if |vs| < 2 then []
    else if |vs| == 2 then Octets(Of4(vs[0], vs[1], 0, 0))[..1]
    else if |vs| == 3 then Octets(Of4(vs[0], vs[1], vs[2], 0))[..2]
    else Octets(Of4(vs[0], vs[1], vs[2], vs[3])) + DecodeValues(vs[4..])
  }

  // The values up to the first character outside the alphabet.
  function Values(s: string): seq<sextet> {
    if s == "" || !IsBase64(s[0]) then [] else [ValueOf(s[0])] + Values(s[1..])
  }

  function Decode(s: string): seq<byte> {
    DecodeValues(Values(s))
  }

  // ---------- the same numbers ----------

  lemma DivMod64(n: nat, q: nat, r: nat)
    requires n == 64 * q + r && r < 64
    ensures n / 64 == q && n % 64 == r
  {
  }

  // The masks and shifts of the encoder give the base-64 digits of the group.
  lemma SameNumber(a: byte, b: byte, c: byte)
    ensures Sextets(Of3(a, b, c)) == [a / 4, a % 4 * 16 + b / 16, b % 16 * 4 + c / 64, c % 64]
  {
    var n := Of3(a, b, c);
    var x: int, y: int, z: int := a, b, c;
    var q1 := 0x400 * x + 4 * y + z / 64;
    var q2 := 16 * x + y / 16;
    assert y == 16 * (y / 16) + y % 16 && x == 4 * (x / 4) + x % 4;
    DivMod64(n, q1, z % 64);
    DivMod64(q1, q2, y % 16 * 4 + z / 64);
    DivMod64(q2, x / 4, x % 4 * 16 + y / 16);
  }

  lemma OctetsOf3(a: byte, b: byte, c: byte)
    ensures Octets(Of3(a, b, c)) == [a, b, c]
  {
    var n := Of3(a, b, c);
    var x: int, y: int, z: int := a, b, c;
    Bits.DivMod256(n, 0x100 * x + y, z);
    Bits.DivMod256(0x100 * x + y, x, y);
    Bits.DivMod256(x, 0, x);
  }

  lemma SameOctets(a: sextet, b: sextet, c: sextet, d: sextet)
    ensures Octets(Of4(a, b, c, d)) == [a * 4 + b / 16, b % 16 * 16 + c / 4, c % 4 * 64 + d]
  {
    var n := Of4(a, b, c, d);
    var x: int, y: int, z: int, w: int := a, b, c, d;
    var q1 := 0x400 * x + 16 * y + z / 4;
    var q2 := 4 * x + y / 16;
    assert y == 16 * (y / 16) + y % 16 && z == 4 * (z / 4) + z % 4;
    Bits.DivMod256(n, q1, z % 4 * 64 + w);
    Bits.DivMod256(q1, q2, y % 16 * 16 + z / 4);
    Bits.DivMod256(q2, 0, q2);
  }

  // Regrouping three bytes as sextets keeps the number.
  lemma Of4Sextets(a: byte, b: byte, c: byte)
    ensures var v := Sextets(Of3(a, b, c)); Of4(v[0], v[1], v[2], v[3]) == Of3(a, b, c)
  {
    SameNumber(a, b, c);
    var x: int, y: int, z: int := a, b, c;
    assert x == 4 * (x / 4) + x % 4 && y == 16 * (y / 16) + y % 16 && z == 64 * (z / 64) + z % 64;
  }

  // ---------- round trip ----------

  lemma ValuesStep(v: sextet, t: string)
    ensures Values([Symbol(v)] + t) == [v] + Values(t)
  {
    hide Symbol, ValueOf, IsBase64;
    SymbolValue(v);
    assert ([Symbol(v)] + t)[1..] == t;
  }

  lemma {:induction false} ValuesOfSymbols(vs: seq<sextet>, t: string)
    ensures Values(Symbols(vs) + t) == vs + Values(t)
  {
    hide Symbol, Values;
    if vs == [] {
      assert Symbols(vs) + t == t;
    } else {
      var u := Symbols(vs[1..]) + t;
      ValuesOfSymbols(vs[1..], t);
      ValuesStep(vs[0], u);
      assert Symbols(vs) + t == [Symbol(vs[0])] + u;
      assert [vs[0]] + (vs[1..] + Values(t)) == vs + Values(t);
    }
  }

  lemma SymbolsLength(vs: seq<sextet>)
    ensures |Symbols(vs)| == |vs|
  {
  }

  lemma {:induction false} RoundTrip(s: seq<byte>)
    ensures Decode(Encode(s)) == s
    decreases |s|
  {
    hide Sextets, Octets, Of3, Of4;
    if |s| == 0 {
    } else if |s| == 1 {
      LastOne(s[0]);
    } else if |s| == 2 {
      LastTwo(s[0], s[1]);
    } else {
      var v := Sextets(Of3(s[0], s[1], s[2]));
      RoundTrip(s[3..]);
      ValuesOfSymbols(v, Encode(s[3..]));
      Of4Sextets(s[0], s[1], s[2]);
      OctetsOf3(s[0], s[1], s[2]);
      GroupFirst(v, Values(Encode(s[3..])));
      assert s == [s[0], s[1], s[2]] + s[3..];
    }
  }

  lemma GroupFirst(v: seq<sextet>, rest: seq<sextet>)
    requires |v| == 4
    ensures DecodeValues(v + rest) == Octets(Of4(v[0], v[1], v[2], v[3])) + DecodeValues(rest)
  {
    assert (v + rest)[4..] == rest;
  }

  lemma PaddingStops()
    ensures Values("==") == [] && Values("=") == []
  {
  }

  lemma TopBits(x: byte, y: byte)
    ensures x / 4 * 4 + (x % 4 * 16 + y / 16) / 16 == x
    ensures (x % 4 * 16 + y / 16) % 16 * 16 + y % 16 * 4 / 4 == y
  {
    assert x == x / 4 * 4 + x % 4 && y == y / 16 * 16 + y % 16;
  }

  lemma LastOne(a: byte)
    ensures Decode(Encode([a])) == [a]
  {
    hide Sextets, Octets, Of3, Of4, Symbols, Values;
    var v := Sextets(Of3(a, 0, 0));
    ValuesOfSymbols(v[..2], "==");
    PaddingStops();
    assert v[..2] + [] == v[..2];
    SameNumber(a, 0, 0);
    SameOctets(v[0], v[1], 0, 0);
    TopBits(a, 0);
  }

  lemma LastTwo(a: byte, b: byte)
    ensures Decode(Encode([a, b])) == [a, b]
  {
    hide Sextets, Octets, Of3, Of4, Symbols, Values;
    var v := Sextets(Of3(a, b, 0));
    ValuesOfSymbols(v[..3], "=");
    PaddingStops();
    assert v[..3] + [] == v[..3];
    SameNumber(a, b, 0);
    SameOctets(v[0], v[1], v[2], 0);
    TopBits(a, b);
  }

  // The bytes of "Man" and of "Ma".
  lemma EncodeMan()
    ensures Encode([77, 97, 110]) == "TWFu" && Encode([77, 97]) == "TWE="
  {
    hide Sextets, Of3;
    SameNumber(77, 97, 110);
    SameNumber(77, 97, 0);
    FourSymbols(19, 22, 5, 46);
    FourSymbols(19, 22, 4, 0);
    assert [77, 97, 110][3..] == [];
    assert Encode([77, 97, 110]) == Symbols([19, 22, 5, 46]) + "";
    assert [19, 22, 4, 0][..3] == [19, 22, 4];
  }

  lemma FourSymbols(a: sextet, b: sextet, c: sextet, d: sextet)
    ensures Symbols([a, b, c, d]) == [Symbol(a), Symbol(b), Symbol(c), Symbol(d)]
    ensures Symbols([a, b, c]) == [Symbol(a), Symbol(b), Symbol(c)]
  {
    assert [a, b, c, d][1..] == [b, c, d] && [b, c, d][1..] == [c, d] && [c, d][1..] == [d] && [d][1..] == [];
    assert [a, b, c][1..] == [b, c] && [b, c][1..] == [c] && [c][1..] == [];
    assert Symbols([d]) == [Symbol(d)] && Symbols([c]) == [Symbol(c)];
    assert Symbols([c, d]) == [Symbol(c), Symbol(d)] && Symbols([b, c]) == [Symbol(b), Symbol(c)];
  }

  // Four characters for every started group of three bytes.
  lemma {:induction false} EncodedLength(s: seq<byte>)
    ensures |Encode(s)| == (|s| + 2) / 3 * 4
    decreases |s|
  {
    hide Sextets, Of3;
    if |s| == 1 {
      SymbolsLength(Sextets(Of3(s[0], 0, 0))[..2]);
    } else if |s| == 2 {
      SymbolsLength(Sextets(Of3(s[0], s[1], 0))[..3]);
    } else if |s| > 2 {
      SymbolsLength(Sextets(Of3(s[0], s[1], s[2])));
      EncodedLength(s[3..]);
    }
  }

  // Six bits a symbol, high bits first; bits that do not fill a byte are dropped.
  lemma {:induction false} DecodedBits(vs: seq<sextet>)
    ensures |DecodeValues(vs)| == |vs| * 3 / 4
    ensures |vs| >= 2 ==> var x: int, y: int := vs[0], vs[1]; DecodeValues(vs)[0] == x * 4 + y / 16
    ensures |vs| >= 3 ==> var y: int, z: int := vs[1], vs[2]; DecodeValues(vs)[1] == y % 16 * 16 + z / 4
    ensures |vs| >= 4 ==> var z: int, w: int := vs[2], vs[3]; DecodeValues(vs)[2] == z % 4 * 64 + w
    ensures |vs| >= 4 ==> DecodeValues(vs)[3..] == DecodeValues(vs[4..])
    decreases |vs|
  {
    hide Octets, Of4;
    if |vs| == 2 {
      SameOctets(vs[0], vs[1], 0, 0);
    } else if |vs| == 3 {
      SameOctets(vs[0], vs[1], vs[2], 0);
    } else if |vs| >= 4 {
      SameOctets(vs[0], vs[1], vs[2], vs[3]);
      DecodedBits(vs[4..]);
    }
  }

  // Decoding stops at the first character outside the alphabet, whatever follows it.
  lemma {:induction false} DecodeStops(s: string, c: char, t: string)
    requires !IsBase64(c)
    ensures Values(s + [c] + t) == Values(s) && Decode(s + [c] + t) == Decode(s)
    decreases |s|
  {
    var u := s + [c] + t;
    if s == "" {
      assert u[0] == c;
    } else {
      DecodeStops(s[1..], c, t);
      assert u[0] == s[0] && u[1..] == s[1..] + [c] + t;
    }
  }

  // ---------- the source's loops ----------

  lemma NextByte(pending: seq<byte>, bytes: seq<byte>, k: nat)
    requires k < |bytes|
    ensures (pending + [bytes[k]]) + bytes[k + 1..] == pending + bytes[k..]
  {
  }

  method EncodeBytes(bytes: seq<byte>) returns (ret: string)
    ensures ret == Encode(bytes)
  {
    hide Encode, Sextets, Of3;
    ret := "";
    var i := 0;
    var a3 := new byte[3](_ => 0);
    ghost var pending: seq<byte> := [];
    var k := 0;
    assert pending + bytes[0..] == bytes;
    while k < |bytes|
      invariant 0 <= k <= |bytes| && 0 <= i < 3
      invariant |pending| == i && forall m | 0 <= m < i :: a3[m] == pending[m]
      invariant ret + Encode(pending + bytes[k..]) == Encode(bytes)
    {
      a3[i] := bytes[k];
      NextByte(pending, bytes, k);
      pending := pending + [bytes[k]];
      i, k := i + 1, k + 1;
      if i == 3 {
        var four := Regroup(a3[0], a3[1], a3[2]);
        FullGroup(pending, bytes[k..]);
        ret := ret + Symbols(four);
        i, pending := 0, [];
        assert pending + bytes[k..] == bytes[k..];
      }
    }
    assert pending + bytes[k..] == pending;
    if i > 0 {
      var last := LastSymbols(a3, i, pending);
      ret := ret + last;
    } else {
      ShortGroup(pending);
    }
  }

  // The group that is left over, filled up with zeros and padded.
  method LastSymbols(a3: array<byte>, i: nat, ghost pending: seq<byte>) returns (last: string)
    requires a3.Length == 3 && 0 < i < 3 && |pending| == i && forall m | 0 <= m < i :: a3[m] == pending[m]
    modifies a3
    ensures last == Encode(pending)
  {
    hide Sextets, Of3, Encode;
    ShortGroup(pending);
    var j := i;
    while j < 3
      invariant i <= j <= 3
      invariant forall m | 0 <= m < i :: a3[m] == pending[m]
      invariant forall m | i <= m < j :: a3[m] == 0
    {
      a3[j] := 0;
      j := j + 1;
    }
    var four := Regroup(a3[0], a3[1], a3[2]);
    last := Symbols(four[..i + 1]) + if i == 1 then "==" else "=";
  }

  // The masks and shifts of one group.
  method Regroup(a: byte, b: byte, c: byte) returns (four: seq<sextet>)
    ensures four == Sextets(Of3(a, b, c))
  {
    SameNumber(a, b, c);
    four := [a / 4, a % 4 * 16 + b / 16, b % 16 * 4 + c / 64, c % 64];
  }

  lemma FullGroup(g: seq<byte>, rest: seq<byte>)
    requires |g| == 3
    ensures Encode(g + rest) == Symbols(Sextets(Of3(g[0], g[1], g[2]))) + Encode(rest)
  {
    assert (g + rest)[3..] == rest;
  }

  lemma ShortGroup(g: seq<byte>)
    requires |g| < 3
    ensures Encode(g) ==
            if |g| == 0 then ""
            else if |g| == 1 then Symbols(Sextets(Of3(g[0], 0, 0))[..2]) + "=="
            else Symbols(Sextets(Of3(g[0], g[1], 0))[..3]) + "="
  {
  }

  lemma NextValue(vs: seq<sextet>, s: string, k: nat)
    requires k < |s| && IsBase64(s[k])
    ensures (vs + [ValueOf(s[k])]) + Values(s[k + 1..]) == vs + Values(s[k..])
  {
    hide IsBase64, ValueOf;
    assert s[k..][1..] == s[k + 1..];
  }

  lemma NoMoreValues(vs: seq<sextet>, s: string, k: nat)
    requires k == |s| || (k < |s| && (s[k] == '=' || !IsBase64(s[k])))
    ensures vs + Values(s[k..]) == vs
  {
  }

  // The group that is left over. Its empty places are looked up in the alphabet, and "not found"
  // becomes 255.
  method LastOctets(a4: array<byte>, i: nat, ghost vs: seq<sextet>) returns (three: seq<byte>)
    requires a4.Length == 4 && 0 < i < 4 && |vs| == i && forall m | 0 <= m < i :: a4[m] == vs[m]
    modifies a4
    ensures |three| == 3 && three[..i - 1] == DecodeValues(vs)
  {
    hide DecodeValues, Octets, Of4;
    ShortValues(vs);
    var j := i;
    while j < 4
      invariant i <= j <= 4
      invariant forall m | 0 <= m < i :: a4[m] == vs[m]
    {
      a4[j] := 255;
      j := j + 1;
    }
    three := Ungroup(a4[0], a4[1], a4[2], a4[3]);
  }

  method DecodeString(s: string) returns (ret: seq<byte>)
    ensures ret == Decode(s)
  {
    hide DecodeValues, Octets, Of4, Values, IsBase64, ValueOf;
    ret := [];
    var i := 0;
    var a4 := new byte[4](_ => 0);
    ghost var vs: seq<sextet> := [];
    var k := 0;
    assert s[0..] == s && vs + Values(s) == Values(s);
    while k < |s| && s[k] != '=' && IsBase64(s[k])
      invariant 0 <= k <= |s| && 0 <= i < 4
      invariant |vs| == i && forall m | 0 <= m < i :: a4[m] == vs[m]
      invariant ret + DecodeValues(vs + Values(s[k..])) == Decode(s)
    {
      a4[i] := ValueOf(s[k]);
      NextValue(vs, s, k);
      vs := vs + [ValueOf(s[k])];
      i, k := i + 1, k + 1;
      if i == 4 {
        var three := Ungroup(a4[0], a4[1], a4[2], a4[3]);
        GroupFirst(vs, Values(s[k..]));
        ret := ret + three;
        i, vs := 0, [];
        assert vs + Values(s[k..]) == Values(s[k..]);
      }
    }
    NoMoreValues(vs, s, k);
    if i > 0 {
      var three := LastOctets(a4, i, vs);
      ret := ret + three[..i - 1];
    } else {
      ShortValues(vs);
    }
  }

  // Decoding into a vector: the same bytes, and never more than were reserved.
  method DecodeBin(s: string) returns (ret: seq<byte>)
    ensures ret == Decode(s)
    ensures |ret| <= |s| * 3 / 4
  {
    hide DecodeValues, Octets, Of4, Values, IsBase64, ValueOf;
    ret := [];
    var i := 0;
    var a4 := new byte[4](_ => 0);
    ghost var vs: seq<sextet> := [];
    var k := 0;
    assert s[0..] == s && vs + Values(s) == Values(s);
    while k < |s| && s[k] != '=' && IsBase64(s[k])
      invariant 0 <= k <= |s| && 0 <= i < 4
      invariant |vs| == i && forall m | 0 <= m < i :: a4[m] == vs[m]
      invariant ret + DecodeValues(vs + Values(s[k..])) == Decode(s)
      invariant 4 * |ret| == 3 * (k - i)
    {
      a4[i] := ValueOf(s[k]);
      NextValue(vs, s, k);
      vs := vs + [ValueOf(s[k])];
      i, k := i + 1, k + 1;
      if i == 4 {
        var three := Ungroup(a4[0], a4[1], a4[2], a4[3]);
        GroupFirst(vs, Values(s[k..]));
        ret := PushBack(ret, three, 3);
        assert three[..3] == three;
        i, vs := 0, [];
        assert vs + Values(s[k..]) == Values(s[k..]);
      }
    }
    NoMoreValues(vs, s, k);
    if i > 0 {
      var three := LastOctets(a4, i, vs);
      ret := PushBack(ret, three, i - 1);
    } else {
      ShortValues(vs);
    }
  }

  method PushBack(vector: seq<byte>, bytes: seq<byte>, n: nat) returns (ret: seq<byte>)
    requires n <= |bytes|
    ensures ret == vector + bytes[..n]
  {
    ret := vector;
    for j := 0 to n
      invariant ret == vector + bytes[..j]
    {
      ret := ret + [bytes[j]];
    }
  }

  lemma ShortValues(vs: seq<sextet>)
    requires |vs| < 4
    ensures DecodeValues(vs) ==
            if |vs| < 2 then []
            else if |vs| == 2 then Octets(Of4(vs[0], vs[1], 0, 0))[..1]
            else Octets(Of4(vs[0], vs[1], vs[2], 0))[..2]
  {
  }

  lemma MaskedSmall(x: nat, y: nat, z: nat, w: nat)
    ensures x < 64 && y < 64 ==> (x * 4 + y / 16 % 4) % 0x100 == x * 4 + y / 16
    ensures z < 64 ==> (y % 16 * 16 + z / 4 % 16) % 0x100 == y % 16 * 16 + z / 4
    ensures w < 64 ==> (z % 4 * 64 + w) % 0x100 == z % 4 * 64 + w
  {
  }

  // The masks and shifts of one group; what is kept of a short one does not depend on the values
  // that fill it up.
  method Ungroup(a: byte, b: byte, c: byte, d: byte) returns (three: seq<byte>)
    ensures |three| == 3
    ensures a < 64 && b < 64 ==> three[..1] == Octets(Of4(a, b, 0, 0))[..1]
    ensures a < 64 && b < 64 && c < 64 ==> three[..2] == Octets(Of4(a, b, c, 0))[..2]
    ensures a < 64 && b < 64 && c < 64 && d < 64 ==> three == Octets(Of4(a, b, c, d))
  {
    hide Octets, Of4;
    var x: int, y: int, z: int, w: int := a, b, c, d;
    MaskedSmall(x, y, z, w);
    three := [(x * 4 + y / 16 % 4) % 0x100, (y % 16 * 16 + z / 4 % 16) % 0x100, (z % 4 * 64 + w) % 0x100];
    if a < 64 && b < 64 {
      SameOctets(a, b, 0, 0);
      if c < 64 {
        SameOctets(a, b, c, 0);
        if d < 64 { SameOctets(a, b, c, d); }
      }
    }
  }
}
