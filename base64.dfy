/**
 * `decodeBase64Flexible`: the text of the upload's `fileBase64` field is
 * cleaned up (a data-URL prefix cut off, white space removed, the URL-safe
 * alphabet of section 5 of RFC 4648 mapped to the standard one of section 4,
 * the padding completed) and handed to `atob`, whose binary string is copied
 * into a byte array. `atob` is the forgiving-base64 decode of the WHATWG
 * Infra standard; the RFC 4648 encoder is its partner in the round trips.
 */
module Base64 {
  import opened Wrappers
  import opened JsValue
  import opened Text

  newtype byte = x: int | 0 <= x < 256

  /** What `decodeBase64Flexible` throws: its own `invalid_base64_length`,
      or the `InvalidCharacterError` of `atob`. */
  /** Why `decodeBase64Flexible` throws: `String(input || "")` throws a
      TypeError, the cleaned length is 1 modulo 4, or `atob` meets a
      character outside the alphabet. */
  datatype DecodeError = TypeError | InvalidLength | InvalidCharacter

  // ---------------------------------------------------------------------
  // The clean-up steps

  /** `s.indexOf(c)` */
  function IndexOf(s: string, c: char): (i: int)
    ensures -1 <= i < |s|
    ensures i == -1 <==> c !in s
    ensures i >= 0 ==> s[i] == c && c !in s[..i]
  {
    if s == [] then -1
    else if s[0] == c then 0
    else
      var j := IndexOf(s[1..], c);
      if j == -1 then -1 else j + 1
  }

  /** The data-URL step: when the text starts with "data:" and has a comma,
      everything up to and including the first comma is cut off. */
  function StripDataUrl(s: string): (r: string)
    ensures StartsWith(s, "data:") && ',' in s ==>
      exists i :: 0 <= i < |s| && s[i] == ',' && ',' !in s[..i] && r == s[i + 1..]
    ensures !(StartsWith(s, "data:") && ',' in s) ==> r == s
  {
    var i := IndexOf(s, ',');
    if StartsWith(s, "data:") && i != -1 then s[i + 1..] else s
  }

  /** The characters of `s` that satisfy `keep`, in their order. */
  function Filter(s: string, keep: char -> bool): (r: string)
    ensures |r| <= |s|
    ensures forall k :: 0 <= k < |r| ==> keep(r[k])
    ensures forall c :: c in r <==> c in s && keep(c)
    ensures (forall k :: 0 <= k < |s| ==> keep(s[k])) ==> r == s
  {
    if s == [] then []
    else (if keep(s[0]) then [s[0]] else []) + Filter(s[1..], keep)
  }

  /** Filtering a concatenation filters each part: the kept characters
      stay in their order, each as often as it occurs. */
  lemma {:induction false} FilterConcat(a: string, b: string, keep: char -> bool)
    ensures Filter(a + b, keep) == Filter(a, keep) + Filter(b, keep)
  {
    if a == [] {
      assert a + b == b;
    } else {
      assert (a + b)[0] == a[0] && (a + b)[1..] == a[1..] + b;
      FilterConcat(a[1..], b, keep);
    }
  }

  /** `s.replace(/\s+/g, "")`: a single character is dropped when it is
      white space and kept otherwise, and (`RemoveSpacesConcat`) the
      characters of a text are treated one by one, in order. */
  function RemoveSpaces(s: string): (r: string)
    ensures forall k :: 0 <= k < |r| ==> !IsJsSpace(r[k])
    ensures forall c :: c in r <==> c in s && !IsJsSpace(c)
    ensures |s| == 1 ==> r == if IsJsSpace(s[0]) then [] else s
    ensures (forall k :: 0 <= k < |s| ==> !IsJsSpace(s[k])) ==> r == s
  {
    Filter(s, c => !IsJsSpace(c))
  }

  /** Removing the white space of a concatenation removes it from each
      part; with the one-character case of `RemoveSpaces` this fixes the
      result: the other characters, in order, repetitions kept. */
  lemma RemoveSpacesConcat(a: string, b: string)
    ensures RemoveSpaces(a + b) == RemoveSpaces(a) + RemoveSpaces(b)
  {
    FilterConcat(a, b, c => !IsJsSpace(c));
  }

  /** The URL-safe alphabet's two letters in standard spelling. */
  function StandardChar(c: char): char {
    if c == '-' then '+' else if c == '_' then '/' else c
  }

  /** `s.replace(/-/g, "+").replace(/_/g, "/")` */
  function UrlSafeToStandard(s: string): (r: string)
    ensures |r| == |s|
    ensures '-' !in r && '_' !in r
    ensures forall k :: 0 <= k < |s| ==> r[k] == StandardChar(s[k])
  {
    if s == [] then [] else [StandardChar(s[0])] + UrlSafeToStandard(s[1..])
  }

  /** The padding step: a text whose length leaves 2 or 3 modulo 4 gets
      "==" or "=", one leaving 0 is kept, and one leaving 1 is refused. */
  function Pad(s: string): (r: Result<string, DecodeError>)
    ensures r.Err? <==> Utf16Length(s) % 4 == 1
    ensures r.Err? ==> r.error == InvalidLength
    ensures r.Ok? ==>
      && Utf16Length(r.value) % 4 == 0
      && StartsWith(r.value, s) && |r.value| <= |s| + 2
      && forall k :: |s| <= k < |r.value| ==> r.value[k] == '='
  {
    var pad := Utf16Length(s) % 4;
    if pad == 2 then
      PaddedBy(s, "==");
      Ok(s + "==")
    else if pad == 3 then
      PaddedBy(s, "=");
      Ok(s + "=")
    else if pad == 1 then Err(InvalidLength)
    else
      assert s[..|s|] == s;
      Ok(s)
  }

  /** Appending the '=' signs a text is short of a multiple of four code
      units completes it and keeps the text as a prefix. */
  lemma PaddedBy(s: string, p: string)
    requires forall k :: 0 <= k < |p| ==> p[k] == '='
    requires 1 <= |p| <= 3 && Utf16Length(s) % 4 == 4 - |p|
    ensures Utf16Length(s + p) % 4 == 0
    ensures StartsWith(s + p, s)
    ensures forall k :: |s| <= k < |s + p| ==> (s + p)[k] == '='
  {
    Utf16LengthConcat(s, p);
    Utf16LengthBmp(p);
    FilledToFour(Utf16Length(s), |p|);
    assert (s + p)[..|s|] == s;
  }

  lemma FilledToFour(n: nat, d: nat)
    requires 1 <= d <= 3 && n % 4 == 4 - d
    ensures (n + d) % 4 == 0
  {
    assert n == n / 4 * 4 + 4 - d;
  }

  /** The text `atob` is given: the three clean-up steps applied to
      `String(input || "")`; it holds no white space and no letter of the
      URL-safe alphabet. */
  function Cleaned(input: Value): (t: string)
    ensures forall k :: 0 <= k < |t| ==> !IsJsSpace(t[k])
    ensures '-' !in t && '_' !in t
  {
    SpacelessStaysSpaceless(StripDataUrl(ToJsString(Or(input, JStr("")))));
    UrlSafeToStandard(RemoveSpaces(StripDataUrl(ToJsString(Or(input, JStr(""))))))
  }

  lemma {:induction false} SpacelessStaysSpaceless(s: string)
    ensures var t := UrlSafeToStandard(RemoveSpaces(s));
      forall k :: 0 <= k < |t| ==> !IsJsSpace(t[k])
  {
    var u := RemoveSpaces(s);
    var t := UrlSafeToStandard(u);
    forall k | 0 <= k < |t| ensures !IsJsSpace(t[k]) {
      assert !IsJsSpace(u[k]);
    }
  }

  // ---------------------------------------------------------------------
  // The alphabet of section 4 of RFC 4648

  predicate InAlphabet(c: char) {
    'A' <= c <= 'Z' || 'a' <= c <= 'z' || '0' <= c <= '9' || c == '+' || c == '/'
  }

  /** The 6-bit value a letter of the alphabet stands for. */
  function SextetValue(c: char): (v: nat)
    requires InAlphabet(c)
    ensures v < 64
  {
    if 'A' <= c <= 'Z' then c as int - 'A' as int
    else if 'a' <= c <= 'z' then c as int - 'a' as int + 26
    else if '0' <= c <= '9' then c as int - '0' as int + 52
    else if c == '+' then 62
    else 63
  }

  /** The letter of the alphabet for a 6-bit value. */
  function AlphabetChar(v: nat): (c: char)
    requires v < 64
    ensures InAlphabet(c) && SextetValue(c) == v
  {
    if v < 26 then ('A' as int + v) as char
    else if v < 52 then ('a' as int + v - 26) as char
    else if v < 62 then ('0' as int + v - 52) as char
    else if v == 62 then '+'
    else '/'
  }

  /** A binary string: one character per byte, its code the byte's value. */
  function Binary(b: seq<byte>): (r: string)
    ensures |r| == |b|
    ensures forall k :: 0 <= k < |b| ==> r[k] as int == b[k] as int
  {
    seq(|b|, k requires 0 <= k < |b| => b[k] as int as char)
  }

  predicate IsBinary(s: string) {
    forall k :: 0 <= k < |s| ==> s[k] as int < 256
  }

  /** The bytes `bin.charCodeAt(i)` reads off a binary string. */
  function Bytes(bin: string): (b: seq<byte>)
    requires IsBinary(bin)
    ensures |b| == |bin|
    ensures forall k :: 0 <= k < |b| ==> b[k] as int == bin[k] as int
  {
    seq(|bin|, k requires 0 <= k < |bin| => bin[k] as int as byte)
  }

  lemma BinaryConcat(a: seq<byte>, b: seq<byte>)
    ensures Binary(a + b) == Binary(a) + Binary(b)
  {
  }

  lemma BytesOfBinary(b: seq<byte>)
    ensures IsBinary(Binary(b)) && Bytes(Binary(b)) == b
  {
  }

  // ---------------------------------------------------------------------
  // Encoding (section 4 of RFC 4648)

  /** The two letters of a last single byte. */
  function LettersOfOne(x: int): (r: string)
    requires 0 <= x < 256
    ensures |r| == 2 && InAlphabet(r[0]) && InAlphabet(r[1])
  {
    [AlphabetChar(x / 4), AlphabetChar(x % 4 * 16)]
  }

  /** The three letters of a last pair of bytes. */
  function LettersOfTwo(x: int, y: int): (r: string)
    requires 0 <= x < 256 && 0 <= y < 256
    ensures |r| == 3 && InAlphabet(r[0]) && InAlphabet(r[1]) && InAlphabet(r[2])
  {
    [AlphabetChar(x / 4), AlphabetChar(x % 4 * 16 + y / 16), AlphabetChar(y % 16 * 4)]
  }

  /** The four letters of a group of three bytes. */
  function LettersOfThree(x: int, y: int, z: int): (r: string)
    requires 0 <= x < 256 && 0 <= y < 256 && 0 <= z < 256
    ensures |r| == 4 && InAlphabet(r[0]) && InAlphabet(r[1]) && InAlphabet(r[2]) && InAlphabet(r[3])
  {
    [AlphabetChar(x / 4), AlphabetChar(x % 4 * 16 + y / 16),
     AlphabetChar(y % 16 * 4 + z / 64), AlphabetChar(z % 64)]
  }

  /** The padding that completes the last group of an encoding of `n`
      bytes. */
  function Padding(n: nat): string {
    if n % 3 == 1 then "==" else if n % 3 == 2 then "=" else ""
  }

  lemma ShiftRemainders(x: nat, n: nat)
    ensures (x + 4) % 4 == x % 4 && (n + 3) % 3 == n % 3
  {
  }

  /** The padding brings the letters of an encoding of `n` bytes to a
      multiple of four. */
  lemma PaddedRemainder(x: nat, n: nat)
    requires x % 4 == (if n % 3 == 0 then 0 else n % 3 + 1)
    ensures (x + |Padding(n)|) % 4 == 0
  {
    if n % 3 == 1 {
      assert x == x / 4 * 4 + 2;
    } else if n % 3 == 2 {
      assert x == x / 4 * 4 + 3;
    } else {
      assert x == x / 4 * 4;
    }
  }

  /** The letters of `b`'s encoding, without the padding: four for each
      full group of three bytes, then two for a last single byte or three
      for a last pair. */
  function EncodeUnpadded(b: seq<byte>): (r: string)
    ensures |r| % 4 == (if |b| % 3 == 0 then 0 else |b| % 3 + 1)
    ensures forall k :: 0 <= k < |r| ==> InAlphabet(r[k])
    decreases |b|
  {
    if |b| == 0 then ""
    else if |b| == 1 then LettersOfOne(b[0] as int)
    else if |b| == 2 then LettersOfTwo(b[0] as int, b[1] as int)
    else
      var rest := EncodeUnpadded(b[3..]);
      var r := LettersOfThree(b[0] as int, b[1] as int, b[2] as int) + rest;
      assert forall k :: 4 <= k < |r| ==> r[k] == rest[k - 4];
      ShiftRemainders(|rest|, |b| - 3);
      r
  }

  /** The padded base64 encoding of `b`. */
  function Encode(b: seq<byte>): (r: string)
    ensures |r| % 4 == 0
    ensures forall k :: 0 <= k < |r| ==> InAlphabet(r[k]) || r[k] == '='
  {
    var u := EncodeUnpadded(b);
    var r := u + Padding(|b|);
    assert forall k :: |u| <= k < |r| ==> r[k] == '=';
    PaddedRemainder(|u|, |b|);
    r
  }

  /** The letter of section 5 of RFC 4648 for a letter of section 4. */
  function UrlSafeChar(c: char): char {
    if c == '+' then '-' else if c == '/' then '_' else c
  }

  /** The unpadded URL-safe ("base64url") encoding of `b`. */
  function EncodeUrlSafe(b: seq<byte>): (r: string)
    ensures |r| == |EncodeUnpadded(b)|
    ensures forall k :: 0 <= k < |r| ==> r[k] == UrlSafeChar(EncodeUnpadded(b)[k])
  {
    var u := EncodeUnpadded(b);
    seq(|u|, k requires 0 <= k < |u| => UrlSafeChar(u[k]))
  }

  // ---------------------------------------------------------------------
  // Decoding: `atob`

  /** The bytes of a group of two, three or four letters: each letter gives
      six bits, and the bits left over past the last whole byte are
      dropped. */
  function Group(s: string): (r: string)
    requires 2 <= |s| <= 4
    requires forall k :: 0 <= k < |s| ==> InAlphabet(s[k])
    ensures |r| == |s| - 1 && IsBinary(r)
    ensures |s| == 2 ==> r[0] as int == SextetsValue(s) / 16
    ensures |s| == 3 ==> r[0] as int * 256 + r[1] as int == SextetsValue(s) / 4
    ensures |s| == 4 ==> r[0] as int * 65536 + r[1] as int * 256 + r[2] as int == SextetsValue(s)
  {
    var v0, v1 := SextetValue(s[0]), SextetValue(s[1]);
    var c0 := (v0 * 4 + v1 / 16) as char;
    if |s| == 2 then
      assert c0 as int == SextetsValue(s) / 16 by { SextetsValueSteps(s); }
      [c0]
    else
      var v2 := SextetValue(s[2]);
      var c1 := (v1 % 16 * 16 + v2 / 4) as char;
      if |s| == 3 then
        assert c0 as int * 256 + c1 as int == SextetsValue(s) / 4 by {
          SextetsValueSteps(s);
          PackThree(v0, v1, v2);
        }
        [c0, c1]
      else
        var v3 := SextetValue(s[3]);
        var c2 := (v2 % 4 * 64 + v3) as char;
        assert c0 as int * 65536 + c1 as int * 256 + c2 as int == SextetsValue(s) by {
          SextetsValueSteps(s);
          PackFour(v0, v1, v2, v3);
        }
        [c0, c1, c2]
  }

  /** The number a run of letters spells in base 64, the first letter the
      most significant. */
  function SextetsValue(s: string): nat
    requires forall k :: 0 <= k < |s| ==> InAlphabet(s[k])
  {
    if s == [] then 0 else SextetsValue(s[..|s| - 1]) * 64 + SextetValue(s[|s| - 1])
  }

  lemma SextetsValueSteps(s: string)
    requires 2 <= |s| <= 4
    requires forall k :: 0 <= k < |s| ==> InAlphabet(s[k])
    ensures var v0, v1 := SextetValue(s[0]), SextetValue(s[1]);
      && (|s| == 2 ==> SextetsValue(s) == v0 * 64 + v1)
      && (|s| == 3 ==> SextetsValue(s) == (v0 * 64 + v1) * 64 + SextetValue(s[2]))
      && (|s| == 4 ==> SextetsValue(s) == ((v0 * 64 + v1) * 64 + SextetValue(s[2])) * 64 + SextetValue(s[3]))
  {
    assert s[..1][..0] == [];
    assert SextetsValue(s[..1]) == SextetValue(s[0]);
    assert s[..2][..1] == s[..1];
    if |s| >= 3 {
      assert s[..3][..2] == s[..2];
    }
    if |s| == 4 {
      assert s[..3] == s[..|s| - 1];
    }
  }

  /** Two bytes packed from three sextets, whose two lowest bits are
      dropped. */
  lemma PackThree(v0: nat, v1: nat, v2: nat)
    requires v0 < 64 && v1 < 64 && v2 < 64
    ensures (v0 * 4 + v1 / 16) * 256 + (v1 % 16 * 16 + v2 / 4) == ((v0 * 64 + v1) * 64 + v2) / 4
  {
    assert v1 == v1 / 16 * 16 + v1 % 16;
    assert v2 == v2 / 4 * 4 + v2 % 4;
    assert ((v0 * 64 + v1) * 64 + v2) == ((v0 * 4 + v1 / 16) * 256 + (v1 % 16 * 16 + v2 / 4)) * 4 + v2 % 4;
  }

  /** Three bytes packed from four sextets. */
  lemma PackFour(v0: nat, v1: nat, v2: nat, v3: nat)
    requires v0 < 64 && v1 < 64 && v2 < 64 && v3 < 64
    ensures (v0 * 4 + v1 / 16) * 65536 + (v1 % 16 * 16 + v2 / 4) * 256 + (v2 % 4 * 64 + v3)
      == ((v0 * 64 + v1) * 64 + v2) * 64 + v3
  {
    assert v1 == v1 / 16 * 16 + v1 % 16;
    assert v2 == v2 / 4 * 4 + v2 % 4;
  }

  /** The binary string a run of letters stands for, four letters at a
      time. */
  function DecodeLetters(s: string): (r: string)
    requires forall k :: 0 <= k < |s| ==> InAlphabet(s[k])
    requires |s| % 4 != 1
    ensures IsBinary(r)
    ensures |r| == |s| - (|s| + 3) / 4
    decreases |s|
  {
    if |s| == 0 then ""
    else if |s| < 4 then Group(s)
    else Group(s[..4]) + DecodeLetters(s[4..])
  }

  predicate IsAsciiWhitespace(c: char) {
    c == '\t' || c == '\n' || c == '\U{C}' || c == '\r' || c == ' '
  }

  /** One or two '=' at the end of a text whose length is a multiple of
      four are dropped; anything else is kept. */
  function DropPadding(d: string): (r: string)
    ensures |d| % 4 != 0 ==> r == d
    ensures |d| % 4 == 0 && EndsWith(d, "==") ==> r == d[..|d| - 2]
    ensures |d| % 4 == 0 && EndsWith(d, "=") && !EndsWith(d, "==") ==> r == d[..|d| - 1]
    ensures |d| % 4 == 0 && !EndsWith(d, "=") ==> r == d
  {
    if |d| % 4 == 0 && EndsWith(d, "==") then d[..|d| - 2]
    else if |d| % 4 == 0 && EndsWith(d, "=") then d[..|d| - 1]
    else d
  }

  /** `atob(data)`, the forgiving-base64 decode: ASCII white space is
      removed, then the padding of a text whose length is a multiple of four;
      a length leaving 1 modulo 4 or a character outside the alphabet makes it
      throw. */
  function Atob(data: string): (r: Result<string, DecodeError>)
    ensures r.Ok? ==> IsBinary(r.value)
    ensures r.Err? ==> r.error == InvalidCharacter
  {
    var d := DropPadding(Filter(data, c => !IsAsciiWhitespace(c)));
    if |d| % 4 == 1 then Err(InvalidCharacter)
    else if exists k :: 0 <= k < |d| && !InAlphabet(d[k]) then Err(InvalidCharacter)
    else Ok(DecodeLetters(d))
  }

  /** Everything `decodeBase64Flexible(input)` does: the bytes, or what it
      throws; it throws its own length error exactly when the cleaned text's
      length leaves 1 modulo 4. */
  function DecodeFlexible(input: Value): (r: Result<seq<byte>, DecodeError>)
    ensures r == Err(TypeError) <==> StringThrows(input)
    ensures r == Err(InvalidLength) <==> !StringThrows(input) && Utf16Length(Cleaned(input)) % 4 == 1
  {
    if StringThrows(Or(input, JStr(""))) then Err(TypeError)
    else match Pad(Cleaned(input))
    case Err(e) => Err(e)
    case Ok(p) =>
      match Atob(p)
      case Err(e) => Err(e)
      case Ok(bin) => Ok(Bytes(bin))
  }

  // ---------------------------------------------------------------------
  // Round trips

  /** The bits of three bytes, cut into four sextets and put back
      together, give the three bytes again. */
  lemma SextetsOfBytes(b0: int, b1: int, b2: int)
    requires 0 <= b0 < 256 && 0 <= b1 < 256 && 0 <= b2 < 256
    ensures b0 / 4 * 4 + (b0 % 4 * 16 + b1 / 16) / 16 == b0
    ensures (b0 % 4 * 16 + b1 / 16) % 16 * 16 + (b1 % 16 * 4 + b2 / 64) / 4 == b1
    ensures (b1 % 16 * 4 + b2 / 64) % 4 * 64 + b2 % 64 == b2
  {
    assert (b0 % 4 * 16 + b1 / 16) / 16 == b0 % 4;
    assert (b0 % 4 * 16 + b1 / 16) % 16 == b1 / 16;
    assert (b1 % 16 * 4 + b2 / 64) / 4 == b1 % 16;
    assert (b1 % 16 * 4 + b2 / 64) % 4 == b2 / 64;
  }

  lemma GroupOfOne(b0: byte)
    ensures Group(EncodeUnpadded([b0])) == Binary([b0])
  {
    var x := b0 as int;
    SextetsOfBytes(x, 0, 0);
    var u := LettersOfOne(x);
    assert SextetValue(u[0]) == x / 4 && SextetValue(u[1]) == x % 4 * 16;
  }

  lemma GroupOfTwo(b0: byte, b1: byte)
    ensures Group(EncodeUnpadded([b0, b1])) == Binary([b0, b1])
  {
    var x, y := b0 as int, b1 as int;
    SextetsOfBytes(x, y, 0);
    var u := LettersOfTwo(x, y);
    assert SextetValue(u[0]) == x / 4 && SextetValue(u[1]) == x % 4 * 16 + y / 16;
    assert SextetValue(u[2]) == y % 16 * 4;
  }

  lemma GroupOfThree(b0: byte, b1: byte, b2: byte)
    ensures Group(LettersOfThree(b0 as int, b1 as int, b2 as int)) == Binary([b0, b1, b2])
  {
    var x, y, z := b0 as int, b1 as int, b2 as int;
    SextetsOfBytes(x, y, z);
    var u := LettersOfThree(x, y, z);
    assert SextetValue(u[0]) == x / 4 && SextetValue(u[1]) == x % 4 * 16 + y / 16;
    assert SextetValue(u[2]) == y % 16 * 4 + z / 64 && SextetValue(u[3]) == z % 64;
  }

  /** The letters of an encoding decode to the encoded bytes. */
  lemma {:induction false} DecodeEncoded(b: seq<byte>)
    ensures |EncodeUnpadded(b)| % 4 != 1
    ensures DecodeLetters(EncodeUnpadded(b)) == Binary(b)
    decreases |b|
  {
    if |b| == 1 {
      assert b == [b[0]];
      GroupOfOne(b[0]);
    } else if |b| == 2 {
      assert b == [b[0], b[1]];
      GroupOfTwo(b[0], b[1]);
    } else if |b| >= 3 {
      DecodeEncoded(b[3..]);
      DecodeEncodedStep(b);
    }
  }

  /** One step of `DecodeEncoded`: decoding the letters of the first three
      bytes in front of the letters of the rest. */
  lemma {:induction false} DecodeEncodedStep(b: seq<byte>)
    requires |b| >= 3
    requires DecodeLetters(EncodeUnpadded(b[3..])) == Binary(b[3..])
    ensures DecodeLetters(EncodeUnpadded(b)) == Binary(b)
  {
    var q, rest := LettersOfThree(b[0] as int, b[1] as int, b[2] as int), EncodeUnpadded(b[3..]);
    assert EncodeUnpadded(b) == q + rest;
    GroupOfHead(b);
    var u := q + rest;
    assert u[..4] == q && u[4..] == rest;
    DecodeJoined(u, b[..3], b[3..]);
    assert b[..3] + b[3..] == b;
  }

  /** The letters of the first three bytes decode to those bytes. */
  lemma {:induction false} GroupOfHead(b: seq<byte>)
    requires |b| >= 3
    ensures Group(LettersOfThree(b[0] as int, b[1] as int, b[2] as int)) == Binary(b[..3])
  {
    GroupOfThree(b[0], b[1], b[2]);
    assert b[..3] == [b[0], b[1], b[2]];
  }

  /** Decoding letters whose first group gives `head` and whose remaining
      letters give `tail` yields `head` followed by `tail`. */
  lemma {:induction false} DecodeJoined(u: string, head: seq<byte>, tail: seq<byte>)
    requires |u| >= 4 && |u| % 4 != 1
    requires forall k :: 0 <= k < |u| ==> InAlphabet(u[k])
    requires Group(u[..4]) == Binary(head) && DecodeLetters(u[4..]) == Binary(tail)
    ensures DecodeLetters(u) == Binary(head + tail)
  {
    BinaryConcat(head, tail);
  }

  /** Dropping the padding of an encoding leaves its letters. */
  lemma {:induction false} DropPaddingOfEncode(b: seq<byte>)
    ensures DropPadding(Encode(b)) == EncodeUnpadded(b)
  {
    var e, u := Encode(b), EncodeUnpadded(b);
    assert e == u + Padding(|b|);
    if |b| % 3 == 0 {
      assert e == u;
      if u != [] {
        assert e[|e| - 1..] == [u[|u| - 1]];
        assert InAlphabet(u[|u| - 1]);
        assert !EndsWith(e, "=");
      }
    } else if |b| % 3 == 1 {
      assert e[..|e| - 2] == u;
      assert e[|e| - 2..] == "==";
    } else {
      assert e[..|e| - 1] == u;
      assert e[|e| - 1..] == "=";
      assert e[|e| - 2..] == [u[|u| - 1], '='];
      assert InAlphabet(u[|u| - 1]);
      assert !EndsWith(e, "==");
    }
  }

  /** An encoding holds no ASCII white space. */
  lemma {:induction false} EncodeHasNoAsciiSpace(b: seq<byte>)
    ensures Filter(Encode(b), c => !IsAsciiWhitespace(c)) == Encode(b)
  {
    var e := Encode(b);
    assert forall k :: 0 <= k < |e| ==> !IsAsciiWhitespace(e[k]);
  }

  /** `atob` decodes the padded encoding of `b` back to `b`'s binary
      string. */
  lemma {:induction false} AtobOfEncode(b: seq<byte>)
    ensures Atob(Encode(b)) == Ok(Binary(b))
  {
    var u := EncodeUnpadded(b);
    EncodeHasNoAsciiSpace(b);
    DropPaddingOfEncode(b);
    DecodeEncoded(b);
    assert !exists k :: 0 <= k < |u| && !InAlphabet(u[k]);
  }

  /** What `atob` is given for a text whose clean-up leaves the padded
      encoding of `b` is decoded back to `b`. */
  lemma {:induction false} DecodePadded(s: string, b: seq<byte>)
    requires Pad(Cleaned(JStr(s))) == Ok(Encode(b))
    ensures DecodeFlexible(JStr(s)) == Ok(b)
  {
    AtobOfEncode(b);
    BytesOfBinary(b);
  }

  /** A text of base64 letters, '-', '_' and '=' passes the data-URL and
      white-space steps unchanged. */
  lemma {:induction false} PlainTextKept(s: string)
    requires forall k :: 0 <= k < |s| ==> InAlphabet(s[k]) || s[k] in "-_="
    ensures StripDataUrl(s) == s && RemoveSpaces(s) == s
  {
    assert ',' !in s;
  }

  /** `String(input || "")` of a string is the string itself. */
  lemma {:induction false} StringOfString(s: string)
    ensures ToJsString(Or(JStr(s), JStr(""))) == s
  {
  }

  /** Text in the standard alphabet and '=' is left alone by the URL-safe
      mapping, and takes one UTF-16 code unit per character. */
  lemma {:induction false} StandardTextKept(s: string)
    requires forall k :: 0 <= k < |s| ==> InAlphabet(s[k]) || s[k] == '='
    ensures UrlSafeToStandard(s) == s && Utf16Length(s) == |s|
  {
    Utf16LengthBmp(s);
  }

  /** The padded encoding needs no more padding. */
  lemma {:induction false} PadOfEncode(b: seq<byte>)
    ensures Pad(Encode(b)) == Ok(Encode(b))
  {
    StandardTextKept(Encode(b));
  }

  /** The padding step restores exactly the padding of the encoding. */
  lemma {:induction false} PadOfUnpadded(b: seq<byte>)
    ensures Pad(EncodeUnpadded(b)) == Ok(Encode(b))
  {
    var u := EncodeUnpadded(b);
    StandardTextKept(u);
    if |b| % 3 == 0 {
      assert Encode(b) == u + "" == u;
    } else if |b| % 3 == 1 {
      assert Encode(b) == u + "==" && Utf16Length(u) % 4 == 2;
    } else {
      assert Encode(b) == u + "=" && Utf16Length(u) % 4 == 3;
    }
  }

  /** The URL-safe mapping undoes the URL-safe spelling of the letters. */
  lemma {:induction false} UrlSafeRestored(b: seq<byte>)
    ensures UrlSafeToStandard(EncodeUrlSafe(b)) == EncodeUnpadded(b)
  {
    var w, u := EncodeUrlSafe(b), EncodeUnpadded(b);
    assert forall k :: 0 <= k < |w| ==> StandardChar(w[k]) == u[k];
  }

  /** The padded standard encoding of `b` is decoded back to `b`. */
  lemma {:induction false} FlexibleDecodesStandard(b: seq<byte>)
    ensures DecodeFlexible(JStr(Encode(b))) == Ok(b)
  {
    var e := Encode(b);
    assert Cleaned(JStr(e)) == e by {
      StringOfString(e);
      PlainTextKept(e);
      StandardTextKept(e);
    }
    PadOfEncode(b);
    DecodePadded(e, b);
  }

  /** The unpadded URL-safe encoding of `b` is decoded back to `b`: the
      alphabet is mapped back and the padding restored. */
  lemma {:induction false} FlexibleDecodesUrlSafe(b: seq<byte>)
    ensures DecodeFlexible(JStr(EncodeUrlSafe(b))) == Ok(b)
  {
    var w := EncodeUrlSafe(b);
    assert Cleaned(JStr(w)) == EncodeUnpadded(b) by {
      StringOfString(w);
      PlainTextKept(w);
      UrlSafeRestored(b);
    }
    PadOfUnpadded(b);
    DecodePadded(w, b);
  }

  /** The data-URL step cuts a data URL `data:<media type>,<text>` down to
      the text when the media type holds no comma. */
  lemma {:induction false} DataUrlStripped(mediaType: string, t: string)
    requires ',' !in mediaType
    ensures StripDataUrl("data:" + mediaType + "," + t) == t
  {
    var s := "data:" + mediaType + "," + t;
    var at := 5 + |mediaType|;
    assert s[at] == ',' && s[at + 1..] == t;
    assert s[..5] == "data:";
    assert IndexOf(s, ',') == at;
  }

  /** A data URL `data:<media type>,<padded encoding of b>` is decoded back
      to `b`, whatever the media type holds besides a comma. */
  lemma {:induction false} FlexibleDecodesDataUrl(mediaType: string, b: seq<byte>)
    requires ',' !in mediaType
    ensures DecodeFlexible(JStr("data:" + mediaType + "," + Encode(b))) == Ok(b)
  {
    var e := Encode(b);
    var s := "data:" + mediaType + "," + e;
    assert Cleaned(JStr(s)) == e by {
      StringOfString(s);
      DataUrlStripped(mediaType, e);
      PlainTextKept(e);
      StandardTextKept(e);
    }
    PadOfEncode(b);
    DecodePadded(s, b);
  }

  /** `new Uint8Array(bin.length)` filled with `bin.charCodeAt(i)`. */
  method CopyBinary(bin: string) returns (out: array<byte>)
    requires IsBinary(bin)
    ensures fresh(out) && out[..] == Bytes(bin)
  {
    out := new byte[|bin|];
    for k := 0 to |bin|
      invariant forall t :: 0 <= t < k ==> out[t] as int == bin[t] as int
    {
      out[k] := bin[k] as int as byte;
    }
  }

  /** The first half of `decodeBase64Flexible`: the text is rewritten step
      by step, from `String(input || "")` to the standard alphabet. */
  method CleanInput(input: Value) returns (s: string)
    ensures s == Cleaned(input)
  {
    s := ToJsString(Or(input, JStr("")));
    ghost var text := s;
    var i := IndexOf(s, ',');
    if StartsWith(s, "data:") && i != -1 {
      s := s[i + 1..];
    }
    assert s == StripDataUrl(text);
    s := RemoveSpaces(s);
    s := UrlSafeToStandard(s);
  }

  /** `decodeBase64Flexible(input)`: the cleaned text is padded and given to
      `atob`, whose binary string is copied byte by byte into a fresh
      array. */
  method DecodeBase64Flexible(input: Value) returns (r: Result<array<byte>, DecodeError>)
    ensures r.Err? <==> DecodeFlexible(input).Err?
    ensures r.Err? ==> r.error == DecodeFlexible(input).error
    ensures r.Ok? ==> fresh(r.value) && r.value[..] == DecodeFlexible(input).value
  {
    if StringThrows(Or(input, JStr(""))) {
      return Err(TypeError);
    }
    var s := CleanInput(input);
    ghost var cleaned := s;
    var pad := Utf16Length(s) % 4;
    if pad == 2 {
      s := s + "==";
    } else if pad == 3 {
      s := s + "=";
    } else if pad == 1 {
      assert Pad(cleaned).Err?;
      return Err(InvalidLength);
    }
    assert Pad(cleaned) == Ok(s);
    var bin := Atob(s);
    if bin.Err? {
      return Err(bin.error);
    }
    assert DecodeFlexible(input) == Ok(Bytes(bin.value));
    var out := CopyBinary(bin.value);
    return Ok(out);
  }
}
