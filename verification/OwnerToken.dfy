// The owner-token printer (parser-api/src/main.rs) against an unpadded base64url
// decoder (sections 3.2 and 5 of RFC 4648), and the token check of
// parser-api/src/validation.rs. Groups of three bytes print as four letters.
module OwnerToken {
  import opened Wrappers

  newtype byte = x: int | 0 <= x < 256

  const ALPHABET: string :=
    "ABCDEFGH" + "IJKLMNOP" + "QRSTUVWX" + "YZabcdef" + "ghijklmn" + "opqrstuv" + "wxyz0123" + "456789-_"
  const MIN_OWNER_TOKEN_LEN: nat := 16
  const MAX_OWNER_TOKEN_LEN: nat := 128

  // The value of a letter, per the table in section 5 of RFC 4648.
  function Value(c: char): (v: Option<nat>)
    ensures v.Some? ==> v.value < 64
  {
    if 'A' <= c <= 'Z' then Some(c as int - 'A' as int)
    else if 'a' <= c <= 'z' then Some(c as int - 'a' as int + 26)
    else if '0' <= c <= '9' then Some(c as int - '0' as int + 52)
    else if c == '-' then Some(62)
    else if c == '_' then Some(63)
    else None
  }

  function Letter(v: nat): char
    requires v < 64
  {
    if v < 26 then ('A' as int + v) as char
    else if v < 52 then ('a' as int + v - 26) as char
    else if v < 62 then ('0' as int + v - 52) as char
    else if v == 62 then '-' else '_'
  }

  // The printer's alphabet is that table, in order.
  lemma AlphabetIsTheTable(v: nat)
    requires v < 64
    ensures ALPHABET[v] == Letter(v)
  {
  }

  lemma LettersAndValues(v: nat)
    requires v < 64
    ensures Value(Letter(v)) == Some(v)
  {
  }

  lemma ValuesAndLetters(c: char)
    requires Value(c).Some?
    ensures Letter(Value(c).value) == c
  {
  }

  // Three bytes as one 24-bit word.
  function Word(a: byte, b: byte, c: byte): (n: nat)
    ensures n < 0x100_0000
  {
    a as int * 0x1_0000 + b as int * 0x100 + c as int
  }

  // The four 6-bit fields of the word, high to low.
  function Field(n: nat, shift: nat): (v: nat)
    requires shift < 4
    ensures v < 64
  {
    (if shift == 3 then n / 0x4_0000 else if shift == 2 then n / 0x1000 else if shift == 1 then n / 0x40 else n) % 64
  }

  lemma FieldsOfSplit(a1: nat, a0: nat, b1: nat, b0: nat, c1: nat, c0: nat, n: nat)
    requires a1 < 64 && a0 < 4 && b1 < 16 && b0 < 16 && c1 < 4 && c0 < 64
    requires n == a1 * 0x4_0000 + (a0 * 16 + b1) * 0x1000 + (b0 * 4 + c1) * 0x40 + c0
    ensures Field(n, 3) == a1 && Field(n, 2) == a0 * 16 + b1 && Field(n, 1) == b0 * 4 + c1 && Field(n, 0) == c0
  {
    assert n / 0x4_0000 == a1;
    assert n / 0x1000 == a1 * 64 + (a0 * 16 + b1);
    assert n / 0x40 == (a1 * 64 + (a0 * 16 + b1)) * 64 + (b0 * 4 + c1);
  }

  lemma FieldsOfBytes(a: byte, b: byte, c: byte)
    ensures var n := Word(a, b, c);
            && Field(n, 3) == a as int / 4
            && Field(n, 2) == a as int % 4 * 16 + b as int / 16
            && Field(n, 1) == b as int % 16 * 4 + c as int / 64
            && Field(n, 0) == c as int % 64
  {
    var x, y, z := a as int, b as int, c as int;
    FieldsOfSplit(x / 4, x % 4, y / 16, y % 16, z / 64, z % 64, Word(a, b, c));
  }

  // What the printer emits, three bytes at a time.
  function Encode(bytes: seq<byte>): string {
    if |bytes| == 0 then ""
    else if |bytes| == 1 then Letters(Word(bytes[0], 0, 0))[..2]
    else if |bytes| == 2 then Letters(Word(bytes[0], bytes[1], 0))[..3]
    else Letters(Word(bytes[0], bytes[1], bytes[2])) + Encode(bytes[3..])
  }

  function Letters(n: nat): (s: string)
    ensures |s| == 4
  {
    [Letter(Field(n, 3)), Letter(Field(n, 2)), Letter(Field(n, 1)), Letter(Field(n, 0))]
  }

  // The bytes four 6-bit values spell.
  function Bytes(v0: nat, v1: nat, v2: nat, v3: nat): (bytes: (byte, byte, byte))
    requires v0 < 64 && v1 < 64 && v2 < 64 && v3 < 64
  {
    ((v0 * 4 + v1 / 16) as byte, (v1 % 16 * 16 + v2 / 4) as byte, (v2 % 4 * 64 + v3) as byte)
  }

  // An unpadded decoder that also refuses non-zero trailing bits, so that each
  // byte sequence has one spelling.
  function Decode(s: string): Option<seq<byte>> {
    if |s| == 0 then Some([])
    else if |s| == 1 || Value(s[0]).None? || Value(s[1]).None? then None
    else
      var v0, v1 := Value(s[0]).value, Value(s[1]).value;
      if |s| == 2 then
        if v1 % 16 != 0 then None else Some([Bytes(v0, v1, 0, 0).0])
      else if Value(s[2]).None? then None
      else
        var v2 := Value(s[2]).value;
        if |s| == 3 then
          if v2 % 4 != 0 then None else Some([Bytes(v0, v1, v2, 0).0, Bytes(v0, v1, v2, 0).1])
        else if Value(s[3]).None? || Decode(s[4..]).None? then None
        else
          var b := Bytes(v0, v1, v2, Value(s[3]).value);
          Some([b.0, b.1, b.2] + Decode(s[4..]).value)
  }

  lemma BytesOfFields(a: byte, b: byte, c: byte)
    ensures var n := Word(a, b, c);
            && Bytes(Field(n, 3), Field(n, 2), Field(n, 1), Field(n, 0)) == (a, b, c)
            && (b == 0 ==> Field(n, 2) % 16 == 0)
            && (b == 0 && c == 0 ==> Field(n, 1) == 0)
            && (c == 0 ==> Field(n, 1) % 4 == 0 && Field(n, 0) == 0)
  {
    FieldsOfBytes(a, b, c);
    var n := Word(a, b, c);
    BytesOfParts(a, b, c, Field(n, 3), Field(n, 2), Field(n, 1), Field(n, 0));
  }

  lemma BytesOfParts(a: byte, b: byte, c: byte, f3: nat, f2: nat, f1: nat, f0: nat)
    requires f3 == a as int / 4 && f2 == a as int % 4 * 16 + b as int / 16
    requires f1 == b as int % 16 * 4 + c as int / 64 && f0 == c as int % 64
    ensures f3 < 64 && f2 < 64 && f1 < 64 && f0 < 64 && Bytes(f3, f2, f1, f0) == (a, b, c)
    ensures b == 0 ==> f2 % 16 == 0
    ensures b == 0 && c == 0 ==> f1 == 0
    ensures c == 0 ==> f1 % 4 == 0 && f0 == 0
  {
    BytesOfSplit(a as int, b as int, c as int);
  }

  lemma BytesOfSplit(x: nat, y: nat, z: nat)
    requires x < 256 && y < 256 && z < 256
    ensures x / 4 * 4 + (x % 4 * 16 + y / 16) / 16 == x
    ensures (x % 4 * 16 + y / 16) % 16 * 16 + (y % 16 * 4 + z / 64) / 4 == y
    ensures (y % 16 * 4 + z / 64) % 4 * 64 + z % 64 == z
  {
    assert (x % 4 * 16 + y / 16) / 16 == x % 4;
    assert (y % 16 * 4 + z / 64) / 4 == y % 16;
  }

  lemma FieldsOfValues(v0: nat, v1: nat, v2: nat, v3: nat)
    requires v0 < 64 && v1 < 64 && v2 < 64 && v3 < 64
    ensures var b := Bytes(v0, v1, v2, v3);
            var n := Word(b.0, b.1, b.2);
            Field(n, 3) == v0 && Field(n, 2) == v1 && Field(n, 1) == v2 && Field(n, 0) == v3
  {
    var b := Bytes(v0, v1, v2, v3);
    FieldsOfBytes(b.0, b.1, b.2);
  }

  lemma LettersSpell(n: nat)
    ensures var s := Letters(n);
            && Value(s[0]) == Some(Field(n, 3)) && Value(s[1]) == Some(Field(n, 2))
            && Value(s[2]) == Some(Field(n, 1)) && Value(s[3]) == Some(Field(n, 0))
  {
    LettersAndValues(Field(n, 3));
    LettersAndValues(Field(n, 2));
    LettersAndValues(Field(n, 1));
    LettersAndValues(Field(n, 0));
  }

  // Every byte sequence survives the round trip.
  lemma {:induction false} DecodeInvertsEncode(bytes: seq<byte>)
    ensures Decode(Encode(bytes)) == Some(bytes)
  {
    if bytes == [] {
    } else {
      var a, b, c := bytes[0], if |bytes| > 1 then bytes[1] else 0, if |bytes| > 2 then bytes[2] else 0;
      var n := Word(a, b, c);
      LettersSpell(n);
      BytesOfFields(a, b, c);
      if |bytes| >= 3 {
        DecodeInvertsEncode(bytes[3..]);
        GroupDecodes(n, Encode(bytes[3..]));
        assert bytes == [a, b, c] + bytes[3..];
      } else if |bytes| == 2 {
        assert bytes == [a, b];
      } else {
        assert bytes == [a];
      }
    }
  }

  lemma GroupDecodes(n: nat, rest: string)
    requires Decode(rest).Some?
    ensures var b := Bytes(Field(n, 3), Field(n, 2), Field(n, 1), Field(n, 0));
            Decode(Letters(n) + rest) == Some([b.0, b.1, b.2] + Decode(rest).value)
  {
    LettersSpell(n);
    var s := Letters(n) + rest;
    assert s[4..] == rest;
  }

  // Only the printer's own spelling decodes: the decoder is its exact inverse.
  lemma {:induction false} EncodeInvertsDecode(s: string)
    requires Decode(s).Some?
    ensures Encode(Decode(s).value) == s
  {
    if s == "" {
    } else {
      if |s| < 4 {
        ShortEncodeInvertsDecode(s);
      } else {
        FullGroupSpells(s[0], s[1], s[2], s[3]);
        EncodeInvertsDecode(s[4..]);
        var bytes := Decode(s).value;
        assert bytes[3..] == Decode(s[4..]).value;
        assert s == [s[0], s[1], s[2], s[3]] + s[4..];
      }
    }
  }

  lemma FullGroupSpells(c0: char, c1: char, c2: char, c3: char)
    requires Value(c0).Some? && Value(c1).Some? && Value(c2).Some? && Value(c3).Some?
    ensures var b := Bytes(Value(c0).value, Value(c1).value, Value(c2).value, Value(c3).value);
            Letters(Word(b.0, b.1, b.2)) == [c0, c1, c2, c3]
  {
    ValuesAndLetters(c0);
    ValuesAndLetters(c1);
    ValuesAndLetters(c2);
    ValuesAndLetters(c3);
    FieldsOfValues(Value(c0).value, Value(c1).value, Value(c2).value, Value(c3).value);
  }

  lemma ShortEncodeInvertsDecode(s: string)
    requires 2 <= |s| < 4 && Decode(s).Some?
    ensures Encode(Decode(s).value) == s
  {
    ValuesAndLetters(s[0]);
    ValuesAndLetters(s[1]);
    var v0, v1 := Value(s[0]).value, Value(s[1]).value;
    if |s| == 2 {
      FieldsOfValues(v0, v1, 0, 0);
      assert Bytes(v0, v1, 0, 0).1 == 0;
    } else {
      ValuesAndLetters(s[2]);
      FieldsOfValues(v0, v1, Value(s[2]).value, 0);
      assert Bytes(v0, v1, Value(s[2]).value, 0).2 == 0;
    }
  }

  lemma {:induction false} EncodedLength(bytes: seq<byte>)
    ensures |Encode(bytes)| == (4 * |bytes| + 2) / 3
  {
    if |bytes| < 3 {
    } else {
      EncodedLength(bytes[3..]);
    }
  }

  lemma {:induction false} EncodedAlphabet(bytes: seq<byte>)
    ensures forall c | c in Encode(bytes) :: Value(c).Some?
  {
    forall v: nat | v < 64 ensures Value(Letter(v)).Some? {
      LettersAndValues(v);
    }
    if |bytes| < 3 {
    } else {
      EncodedAlphabet(bytes[3..]);
    }
  }

  // validate_owner_token
  predicate ValidOwnerToken(token: string) {
    && MIN_OWNER_TOKEN_LEN <= |token| <= MAX_OWNER_TOKEN_LEN
    && forall c | c in token ::
         'A' <= c <= 'Z' || 'a' <= c <= 'z' || '0' <= c <= '9' || c == '-' || c == '_'
  }

  lemma AlphabetLetters(n: nat)
    ensures [ALPHABET[Field(n, 3)], ALPHABET[Field(n, 2)], ALPHABET[Field(n, 1)], ALPHABET[Field(n, 0)]] == Letters(n)
  {
    AlphabetIsTheTable(Field(n, 3));
    AlphabetIsTheTable(Field(n, 2));
    AlphabetIsTheTable(Field(n, 1));
    AlphabetIsTheTable(Field(n, 0));
  }

  // Push the word's `count` highest fields.
  method PrintFields(n: nat, count: nat) returns (out: string)
    requires count <= 4
    ensures out == Letters(n)[..count]
  {
    AlphabetLetters(n);
    out := [ALPHABET[Field(n, 3)], ALPHABET[Field(n, 2)], ALPHABET[Field(n, 1)], ALPHABET[Field(n, 0)]][..count];
  }

  lemma GroupThenRest(bytes: seq<byte>, i: nat)
    requires i + 3 <= |bytes|
    ensures Encode(bytes[i..]) == Letters(Word(bytes[i], bytes[i + 1], bytes[i + 2])) + Encode(bytes[i + 3..])
  {
    assert bytes[i..][3..] == bytes[i + 3..];
  }

  method Base64UrlEncode(bytes: seq<byte>) returns (out: string)
    ensures out == Encode(bytes)
    ensures Decode(out) == Some(bytes)
    ensures |out| == (4 * |bytes| + 2) / 3
  {
    out := "";
    var i := 0;
    while i + 3 <= |bytes|
      invariant i <= |bytes| && out + Encode(bytes[i..]) == Encode(bytes)
    {
      var n := Word(bytes[i], bytes[i + 1], bytes[i + 2]);
      var group := PrintFields(n, 4);
      GroupThenRest(bytes, i);
      assert group == Letters(n);
      out := out + group;
      i := i + 3;
    }
    var tail := "";
    if |bytes| - i == 1 {
      tail := PrintFields(Word(bytes[i], 0, 0), 2);
    } else if |bytes| - i == 2 {
      tail := PrintFields(Word(bytes[i], bytes[i + 1], 0), 3);
    }
    assert tail == Encode(bytes[i..]);
    out := out + tail;
    DecodeInvertsEncode(bytes);
    EncodedLength(bytes);
  }

  // `buf` is what the operating system's generator filled in.
  method MintOwnerToken(buf: seq<byte>) returns (token: string)
    requires |buf| == 32
    ensures |token| == 43 && ValidOwnerToken(token)
    ensures Decode(token) == Some(buf)
  {
    token := Base64UrlEncode(buf);
    EncodedAlphabet(buf);
  }
}
