/** Regrouping of bit strings, the common core of base32 and base64 (sections 4 and 6 of RFC 4648). */
module BitGroups {

  type byte = x: int | 0 <= x < 256

  function Pow2(w: nat): (p: nat)
    ensures p >= 1
  {
    if w == 0 then 1 else 2 * Pow2(w - 1)
  }

  /** The `w` low bits of `v`, most significant first. */
  function ToBits(v: nat, w: nat): (bits: seq<bool>)
    ensures |bits| == w
  {
    if w == 0 then [] else ToBits(v / 2, w - 1) + [v % 2 == 1]
  }

  function FromBits(bits: seq<bool>): (v: nat)
    ensures v < Pow2(|bits|)
  {
    if bits == [] then 0
    else 2 * FromBits(bits[..|bits| - 1]) + if bits[|bits| - 1] then 1 else 0
  }

  lemma {:induction false} FromToBits(v: nat, w: nat)
    requires v < Pow2(w)
    ensures FromBits(ToBits(v, w)) == v
  {
    if w > 0 {
      FromToBits(v / 2, w - 1);
      assert ToBits(v, w)[..w - 1] == ToBits(v / 2, w - 1);
    }
  }

  lemma {:induction false} ToFromBits(bits: seq<bool>)
    ensures ToBits(FromBits(bits), |bits|) == bits
  {
    if bits != [] {
      var front := bits[..|bits| - 1];
      ToFromBits(front);
      assert FromBits(bits) / 2 == FromBits(front);
      assert bits == front + [bits[|bits| - 1]];
    }
  }

  function Zeros(n: nat): (z: seq<bool>)
    ensures |z| == n
  {
    seq(n, _ => false)
  }

  /** Cuts a bit string into `w`-bit values; a short last group is filled with zero bits. */
  function Group(bits: seq<bool>, w: nat): (vals: seq<nat>)
    requires w > 0
    ensures forall i :: 0 <= i < |vals| ==> vals[i] < Pow2(w)
    decreases |bits|
  {
    if bits == [] then []
    else if |bits| < w then [FromBits(bits + Zeros(w - |bits|))]
    else [FromBits(bits[..w])] + Group(bits[w..], w)
  }

  function Ungroup(vals: seq<nat>, w: nat): seq<bool> {
    if vals == [] then [] else ToBits(vals[0], w) + Ungroup(vals[1..], w)
  }

  lemma {:induction false} UngroupCount(vals: seq<nat>, w: nat)
    ensures |Ungroup(vals, w)| == |vals| * w
  {
    if vals != [] {
      UngroupCount(vals[1..], w);
    }
  }

  /** How many zero bits `Group` has to add. */
  function Slack(n: nat, w: nat): (s: nat)
    requires w > 0
    ensures s < w
  {
    if n == 0 then 0 else if n < w then w - n else Slack(n - w, w)
  }

  lemma {:induction false} UngroupGroup(bits: seq<bool>, w: nat)
    requires w > 0
    ensures Ungroup(Group(bits, w), w) == bits + Zeros(Slack(|bits|, w))
    decreases |bits|
  {
    if bits == [] {
    } else if |bits| < w {
      UngroupOne(bits + Zeros(w - |bits|), [], w);
    } else {
      UngroupGroup(bits[w..], w);
      UngroupOne(bits[..w], Group(bits[w..], w), w);
      assert bits == bits[..w] + bits[w..];
    }
  }

  lemma UngroupOne(first: seq<bool>, rest: seq<nat>, w: nat)
    requires |first| == w
    ensures Ungroup([FromBits(first)] + rest, w) == first + Ungroup(rest, w)
  {
    ToFromBits(first);
    assert ([FromBits(first)] + rest)[1..] == rest;
  }

  lemma {:induction false} GroupUngroup(vals: seq<nat>, w: nat)
    requires w > 0 && forall i :: 0 <= i < |vals| ==> vals[i] < Pow2(w)
    ensures Group(Ungroup(vals, w), w) == vals
  {
    if vals != [] {
      FromToBits(vals[0], w);
      GroupUngroup(vals[1..], w);
      var bits := Ungroup(vals, w);
      assert bits[..w] == ToBits(vals[0], w) && bits[w..] == Ungroup(vals[1..], w);
    }
  }

  /** Octets to `w`-bit symbols. */
  function Encode(bytes: seq<byte>, w: nat): (symbols: seq<nat>)
    requires 0 < w <= 8
    ensures forall i :: 0 <= i < |symbols| ==> symbols[i] < Pow2(w)
  {
    Group(Ungroup(AsNats(bytes), 8), w)
  }

  function AsNats(bytes: seq<byte>): (r: seq<nat>)
    ensures |r| == |bytes| && forall i :: 0 <= i < |bytes| ==> r[i] == bytes[i]
  {
    seq(|bytes|, i requires 0 <= i < |bytes| => bytes[i])
  }

  function AsBytes(vals: seq<nat>): (r: seq<byte>)
    requires forall i :: 0 <= i < |vals| ==> vals[i] < 256
    ensures |r| == |vals| && forall i :: 0 <= i < |vals| ==> r[i] == vals[i]
  {
    seq(|vals|, i requires 0 <= i < |vals| => vals[i])
  }

  /** `w`-bit symbols back to octets: the bits after the last whole octet are dropped. */
  function Decode(symbols: seq<nat>, w: nat): seq<byte>
    requires 0 < w <= 8
  {
    var bits := Ungroup(symbols, w);
    assert Pow2(8) == 256 by { Pow2Of8(); }
    AsBytes(Group(bits[..|bits| / 8 * 8], 8))
  }

  lemma Pow2Of8()
    ensures Pow2(8) == 256 && Pow2(5) == 32 && Pow2(6) == 64
  {
    assert Pow2(3) == 8;
    assert Pow2(5) == 32;
  }

  /** Decoding undoes encoding, whatever the length of the input. */
  lemma DecodeEncode(bytes: seq<byte>, w: nat)
    requires 0 < w <= 8
    ensures Decode(Encode(bytes, w), w) == bytes
  {
    var octets := Ungroup(AsNats(bytes), 8);
    var bits := Ungroup(Encode(bytes, w), w);
    UngroupCount(AsNats(bytes), 8);
    UngroupGroup(octets, w);
    assert |bits| / 8 * 8 == |octets|;
    assert bits[..|octets|] == octets;
    Pow2Of8();
    GroupUngroup(AsNats(bytes), 8);
    assert AsBytes(AsNats(bytes)) == bytes;
  }

  /** The symbols carry the octets' bits and fewer than one symbol's worth of filler. */
  lemma EncodeCount(bytes: seq<byte>, w: nat)
    requires 0 < w <= 8
    ensures 8 * |bytes| <= |Encode(bytes, w)| * w < 8 * |bytes| + w
  {
    var octets := Ungroup(AsNats(bytes), 8);
    UngroupCount(AsNats(bytes), 8);
    UngroupGroup(octets, w);
    UngroupCount(Encode(bytes, w), w);
  }

  // ---- the order of bits and symbols ----

  /** The number that digits spell in a base, most significant first. */
  function Spelled(digits: seq<nat>, base: nat): nat {
    if digits == [] then 0 else Spelled(digits[..|digits| - 1], base) * base + digits[|digits| - 1]
  }

  lemma FromBitsSnoc(bits: seq<bool>, bit: bool)
    ensures FromBits(bits + [bit]) == 2 * FromBits(bits) + if bit then 1 else 0
  {
    assert (bits + [bit])[..|bits|] == bits;
  }

  lemma {:induction false} FromBitsConcat(a: seq<bool>, b: seq<bool>)
    ensures FromBits(a + b) == FromBits(a) * Pow2(|b|) + FromBits(b)
  {
    if b == [] {
      assert a + b == a;
    } else {
      var front, last := b[..|b| - 1], b[|b| - 1];
      assert b == front + [last] && a + b == (a + front) + [last];
      FromBitsSnoc(front, last);
      FromBitsSnoc(a + front, last);
      FromBitsConcat(a, front);
      DoubledProduct(FromBits(a), Pow2(|front|));
    }
  }

  lemma DoubledProduct(x: nat, p: nat)
    ensures x * (2 * p) == 2 * (x * p)
  {
  }

  lemma {:induction false} FromZeros(n: nat)
    ensures FromBits(Zeros(n)) == 0
  {
    if n > 0 {
      assert Zeros(n)[..n - 1] == Zeros(n - 1);
      FromZeros(n - 1);
    }
  }

  lemma {:induction false} UngroupSnoc(vals: seq<nat>, v: nat, w: nat)
    ensures Ungroup(vals + [v], w) == Ungroup(vals, w) + ToBits(v, w)
  {
    if vals == [] {
      assert [] + [v] == [v] && [v][1..] == [];
    } else {
      assert (vals + [v])[1..] == vals[1..] + [v];
      UngroupSnoc(vals[1..], v, w);
    }
  }

  lemma {:induction false} UngroupSpells(vals: seq<nat>, w: nat)
    requires forall i :: 0 <= i < |vals| ==> vals[i] < Pow2(w)
    ensures FromBits(Ungroup(vals, w)) == Spelled(vals, Pow2(w))
  {
    if vals != [] {
      var front, last := vals[..|vals| - 1], vals[|vals| - 1];
      assert vals == front + [last];
      UngroupSnoc(front, last, w);
      FromBitsConcat(Ungroup(front, w), ToBits(last, w));
      FromToBits(last, w);
      UngroupSpells(front, w);
    }
  }

  /**
   * Symbols and octets spell the same number, most significant first, but for the zero bits that fill the last symbol:
   * which leaves only one encoding.
   */
  lemma SymbolsSpellOctets(bytes: seq<byte>, w: nat)
    requires 0 < w <= 8
    ensures 8 * |bytes| <= |Encode(bytes, w)| * w < 8 * |bytes| + w
    ensures Spelled(Encode(bytes, w), Pow2(w))
      == Spelled(AsNats(bytes), 256) * Pow2(|Encode(bytes, w)| * w - 8 * |bytes|)
  {
    var octets := Ungroup(AsNats(bytes), 8);
    var slack := Slack(|octets|, w);
    EncodeCount(bytes, w);
    UngroupCount(AsNats(bytes), 8);
    UngroupCount(Encode(bytes, w), w);
    UngroupGroup(octets, w);
    Pow2Of8();
    UngroupSpells(Encode(bytes, w), w);
    UngroupSpells(AsNats(bytes), 8);
    FromBitsConcat(octets, Zeros(slack));
    FromZeros(slack);
  }

  function Padding(n: nat): string {
    seq(n, _ => '=')
  }

  /** `-n % q`: what a text of length `n` lacks to fill its last quantum of `q` characters. */
  function Missing(n: nat, q: nat): nat
    requires q > 0
  {
    (q - n % q) % q
  }

  /** `s + "=" * (-len(s) % q)`. */
  function Restore(s: string, q: nat): string
    requires q > 0
  {
    s + Padding(Missing(|s|, q))
  }

  /** `s.rstrip("=")`. */
  function Unpadded(s: string): string {
    if s == [] || s[|s| - 1] != '=' then s else Unpadded(s[..|s| - 1])
  }

  /** Stripping `=` off the end keeps every other character in its place. */
  lemma {:induction false} UnpaddedKeeps(s: string, i: nat)
    requires i < |s| && s[i] != '='
    ensures i < |Unpadded(s)| && Unpadded(s)[i] == s[i]
  {
    if s[|s| - 1] == '=' {
      UnpaddedKeeps(s[..|s| - 1], i);
    }
  }

  lemma {:induction false} UnpaddedPadding(s: string, n: nat)
    requires s == [] || s[|s| - 1] != '='
    ensures Unpadded(s + Padding(n)) == s
  {
    if n == 0 {
      assert s + Padding(0) == s;
    } else {
      var t := s + Padding(n);
      assert t[..|t| - 1] == s + Padding(n - 1);
      UnpaddedPadding(s, n - 1);
    }
  }
}

/** Base32 with the alphabet and padding of section 6 of RFC 4648. */
module Base32 {
  import opened Nulls
  import opened BitGroups

  function Symbol(v: nat): char
    requires v < 32
  {
    if v < 26 then ('A' as int + v) as char else ('2' as int + (v - 26)) as char
  }

  predicate InAlphabet(c: char) {
    'A' <= c <= 'Z' || '2' <= c <= '7'
  }

  function SymbolValue(c: char): (v: nat)
    requires InAlphabet(c)
    ensures v < 32 && Symbol(v) == c
  {
    if 'A' <= c then c as int - 'A' as int else c as int - '2' as int + 26
  }

  function Symbols(vals: seq<nat>): (s: string)
    requires forall i :: 0 <= i < |vals| ==> vals[i] < 32
    ensures |s| == |vals|
    ensures forall i :: 0 <= i < |s| ==> InAlphabet(s[i]) && SymbolValue(s[i]) == vals[i]
  {
    seq(|vals|, i requires 0 <= i < |vals| => Symbol(vals[i]))
  }

  function SymbolValues(s: string): (vals: seq<nat>)
    requires forall i :: 0 <= i < |s| ==> InAlphabet(s[i])
    ensures |vals| == |s|
    ensures forall i :: 0 <= i < |s| ==> vals[i] == SymbolValue(s[i]) < 32
  {
    seq(|s|, i requires 0 <= i < |s| => SymbolValue(s[i]))
  }

  function Data(bytes: seq<byte>): (s: string)
    ensures forall i :: 0 <= i < |s| ==> InAlphabet(s[i])
  {
    Pow2Of8();
    Symbols(BitGroups.Encode(bytes, 5))
  }

  /** `base64.b32encode`. */
  function Encode(bytes: seq<byte>): string {
    Restore(Data(bytes), 8)
  }

  /** `base64.b32decode`; `None` stands for `binascii.Error`. */
  function Decode(s: string): Option<seq<byte>> {
    var data := Unpadded(s);
    if |s| % 8 != 0 || |s| - |data| !in {0, 1, 3, 4, 6} then None
    else if exists i :: 0 <= i < |data| && !InAlphabet(data[i]) then None
    else Some(BitGroups.Decode(SymbolValues(data), 5))
  }

  /** `rstrip("=")` of an encoding leaves exactly its data symbols. */
  lemma UnpaddedEncoding(bytes: seq<byte>)
    ensures Unpadded(Encode(bytes)) == Data(bytes)
  {
    var s := Data(bytes);
    UnpaddedPadding(s, Missing(|s|, 8));
  }

  lemma DecodeData(data: string)
    requires forall i :: 0 <= i < |data| ==> InAlphabet(data[i])
    requires Unpadded(Restore(data, 8)) == data
    requires Missing(|data|, 8) in {0, 1, 3, 4, 6} && (|data| + Missing(|data|, 8)) % 8 == 0
    ensures Decode(Restore(data, 8)) == Some(BitGroups.Decode(SymbolValues(data), 5))
  {
  }

  const ALPHABET := "ABCDEFGHIJKLMNOPQRSTUVWXYZ234567"

  /** Table 3 of RFC 4648. */
  lemma SymbolIs(v: nat)
    requires v < 32
    ensures |ALPHABET| == 32 && Symbol(v) == ALPHABET[v]
  {
  }

  /** A last quantum of one, two, three or four octets is padded with six, four, three or one `=`. */
  lemma EncodingShape(bytes: seq<byte>)
    ensures var data, text := Data(bytes), Encode(bytes);
      var filler := [0, 6, 4, 3, 1][|bytes| % 5];
      && |text| % 8 == 0 && |text| == |data| + filler && text[..|data|] == data
      && forall i :: |data| <= i < |text| ==> text[i] == '='
  {
    DataCount(bytes);
    EncodeCount(bytes, 5);
    FillerIs(|bytes| / 5, |bytes| % 5, |Data(bytes)|);
  }

  lemma FillerIs(q: nat, r: nat, m: nat)
    requires r < 5 && 8 * (5 * q + r) <= m * 5 < 8 * (5 * q + r) + 5
    ensures Missing(m, 8) == [0, 6, 4, 3, 1][r]
  {
    var extra: int := m - 8 * q;
    assert 8 * r <= 5 * extra < 8 * r + 5;
    assert extra == [0, 2, 4, 5, 7][r];
    assert m % 8 == extra;
  }

  /** Text with a wrong length or a foreign character is refused. */
  lemma DecodeRefuses(s: string, i: nat)
    requires |s| % 8 != 0 || (i < |s| && !InAlphabet(s[i]) && s[i] != '=')
    ensures Decode(s) == None
  {
    if |s| % 8 == 0 {
      UnpaddedKeeps(s, i);
      assert !InAlphabet(Unpadded(s)[i]);
    }
  }

  /** Restoring the padding of a stripped encoding and decoding gives the octets back, for every length. */
  lemma DecodeRestored(bytes: seq<byte>)
    ensures Decode(Restore(Data(bytes), 8)) == Some(bytes)
  {
    DataCount(bytes);
    UnpaddedEncoding(bytes);
    DecodeData(Data(bytes));
    assert SymbolValues(Data(bytes)) == BitGroups.Encode(bytes, 5) by { Pow2Of8(); }
    DecodeEncode(bytes, 5);
  }

  lemma DataCount(bytes: seq<byte>)
    ensures Missing(|Data(bytes)|, 8) in {0, 1, 3, 4, 6} && (|Data(bytes)| + Missing(|Data(bytes)|, 8)) % 8 == 0
  {
    EncodeCount(bytes, 5);
    PaddingIsLegal(|bytes|, |Data(bytes)|);
  }

  lemma PaddingIsLegal(n: nat, m: nat)
    requires 8 * n <= m * 5 < 8 * n + 5
    ensures Missing(m, 8) in {0, 1, 3, 4, 6} && (m + Missing(m, 8)) % 8 == 0
  {
    LastQuantum(n, m / 8, m % 8);
    assert Missing(m, 8) == if m % 8 == 0 then 0 else 8 - m % 8;
  }

  /** Five octets fill eight symbols, so a last quantum of 1, 3 or 6 symbols never arises. */
  lemma LastQuantum(n: nat, k: nat, r: nat)
    requires r < 8 && 8 * n <= (8 * k + r) * 5 < 8 * n + 5
    ensures r in {0, 2, 4, 5, 7}
  {
    var j: int := n - 5 * k;
    assert 8 * j <= 5 * r < 8 * j + 5;
  }
}

/** The URL-safe base64 alphabet and padding of section 5 of RFC 4648. */
module Base64Url {
  import opened Nulls
  import opened BitGroups

  function Symbol(v: nat): char
    requires v < 64
  {
    if v < 26 then ('A' as int + v) as char
    else if v < 52 then ('a' as int + (v - 26)) as char
    else if v < 62 then ('0' as int + (v - 52)) as char
    else if v == 62 then '-' else '_'
  }

  predicate InAlphabet(c: char) {
    'A' <= c <= 'Z' || 'a' <= c <= 'z' || '0' <= c <= '9' || c == '-' || c == '_'
  }

  function SymbolValue(c: char): (v: nat)
    requires InAlphabet(c)
    ensures v < 64 && Symbol(v) == c
  {
    if 'A' <= c <= 'Z' then c as int - 'A' as int
    else if 'a' <= c <= 'z' then c as int - 'a' as int + 26
    else if '0' <= c <= '9' then c as int - '0' as int + 52
    else if c == '-' then 62 else 63
  }

  function Symbols(vals: seq<nat>): (s: string)
    requires forall i :: 0 <= i < |vals| ==> vals[i] < 64
    ensures |s| == |vals|
    ensures forall i :: 0 <= i < |s| ==> InAlphabet(s[i]) && SymbolValue(s[i]) == vals[i]
  {
    seq(|vals|, i requires 0 <= i < |vals| => Symbol(vals[i]))
  }

  function SymbolValues(s: string): (vals: seq<nat>)
    requires forall i :: 0 <= i < |s| ==> InAlphabet(s[i])
    ensures |vals| == |s|
    ensures forall i :: 0 <= i < |s| ==> vals[i] == SymbolValue(s[i]) < 64
  {
    seq(|s|, i requires 0 <= i < |s| => SymbolValue(s[i]))
  }

  function Data(bytes: seq<byte>): (s: string)
    ensures forall i :: 0 <= i < |s| ==> InAlphabet(s[i])
  {
    Pow2Of8();
    Symbols(BitGroups.Encode(bytes, 6))
  }

  /** `base64.urlsafe_b64encode`. */
  function Encode(bytes: seq<byte>): string {
    Restore(Data(bytes), 4)
  }

  /** `base64.urlsafe_b64decode`; `None` stands for `binascii.Error`. */
  function Decode(s: string): Option<seq<byte>> {
    var data := Unpadded(s);
    if |s| % 4 != 0 || |s| - |data| !in {0, 1, 2} then None
    else if exists i :: 0 <= i < |data| && !InAlphabet(data[i]) then None
    else Some(BitGroups.Decode(SymbolValues(data), 6))
  }

  /** `rstrip("=")` of an encoding leaves exactly its data symbols. */
  lemma UnpaddedEncoding(bytes: seq<byte>)
    ensures Unpadded(Encode(bytes)) == Data(bytes)
  {
    UnpaddedPadding(Data(bytes), Missing(|Data(bytes)|, 4));
  }

  lemma DecodeData(data: string)
    requires forall i :: 0 <= i < |data| ==> InAlphabet(data[i])
    requires Unpadded(Restore(data, 4)) == data
    requires Missing(|data|, 4) in {0, 1, 2} && (|data| + Missing(|data|, 4)) % 4 == 0
    ensures Decode(Restore(data, 4)) == Some(BitGroups.Decode(SymbolValues(data), 6))
  {
  }

  /** Table 2 of RFC 4648. */
  lemma SymbolIs(v: nat)
    requires v < 64
    ensures v < 26 ==> Symbol(v) == "ABCDEFGHIJKLMNOPQRSTUVWXYZ"[v]
    ensures 26 <= v < 52 ==> Symbol(v) == "abcdefghijklmnopqrstuvwxyz"[v - 26]
    ensures 52 <= v ==> Symbol(v) == "0123456789-_"[v - 52]
  {
  }

  /** A last quantum of one or two octets is padded with two or one `=`. */
  lemma EncodingShape(bytes: seq<byte>)
    ensures var data, text := Data(bytes), Encode(bytes);
      var filler := [0, 2, 1][|bytes| % 3];
      && |text| % 4 == 0 && |text| == |data| + filler && text[..|data|] == data
      && forall i :: |data| <= i < |text| ==> text[i] == '='
  {
    DataCount(bytes);
    EncodeCount(bytes, 6);
    assert |bytes| == 3 * (|bytes| / 3) + |bytes| % 3;
    FillerIs(|bytes| / 3, |bytes| % 3, |Data(bytes)|);
    assert Encode(bytes) == Data(bytes) + Padding(Missing(|Data(bytes)|, 4));
  }

  lemma FillerIs(q: nat, r: nat, m: nat)
    requires r < 3 && 8 * (3 * q + r) <= m * 6 < 8 * (3 * q + r) + 6
    ensures Missing(m, 4) == [0, 2, 1][r]
  {
    var extra: int := m - 4 * q;
    assert 8 * r <= 6 * extra < 8 * r + 6;
    assert extra == [0, 2, 3][r];
    assert m % 4 == extra;
  }

  /** Text with a wrong length or a foreign character is refused. */
  lemma DecodeRefuses(s: string, i: nat)
    requires |s| % 4 != 0 || (i < |s| && !InAlphabet(s[i]) && s[i] != '=')
    ensures Decode(s) == None
  {
    if |s| % 4 == 0 {
      UnpaddedKeeps(s, i);
      assert !InAlphabet(Unpadded(s)[i]);
    }
  }

  /** Restoring the padding of a stripped encoding and decoding gives the octets back, for every length. */
  lemma DecodeRestored(bytes: seq<byte>)
    ensures Decode(Restore(Data(bytes), 4)) == Some(bytes)
  {
    DataCount(bytes);
    UnpaddedEncoding(bytes);
    DecodeData(Data(bytes));
    assert SymbolValues(Data(bytes)) == BitGroups.Encode(bytes, 6) by { Pow2Of8(); }
    DecodeEncode(bytes, 6);
  }

  lemma DataCount(bytes: seq<byte>)
    ensures Missing(|Data(bytes)|, 4) in {0, 1, 2} && (|Data(bytes)| + Missing(|Data(bytes)|, 4)) % 4 == 0
  {
    EncodeCount(bytes, 6);
    PaddingIsLegal(|bytes|, |Data(bytes)|);
  }

  lemma PaddingIsLegal(n: nat, m: nat)
    requires 8 * n <= m * 6 < 8 * n + 6
    ensures Missing(m, 4) in {0, 1, 2} && (m + Missing(m, 4)) % 4 == 0
  {
    LastQuantum(n, m / 4, m % 4);
    assert Missing(m, 4) == if m % 4 == 0 then 0 else 4 - m % 4;
  }

  /** Three octets fill four symbols, so a last quantum of one symbol never arises. */
  lemma LastQuantum(n: nat, k: nat, r: nat)
    requires r < 4 && 8 * n <= (4 * k + r) * 6 < 8 * n + 6
    ensures r != 1
  {
    var j: int := n - 3 * k;
    assert 8 * j <= 6 * r < 8 * j + 6;
  }
}
