/** The two letter-rotation ciphers of the page script: the case-preserving
    `CaesarCipher` class (encrypt, decrypt, reverse) and the standalone
    `cipher` function behind the second set of buttons, which lowercases
    every letter it rotates. Both are total: a shift outside 0..26 is
    evaluated with JavaScript's truncating `%`, and the lemmas below say for
    which shifts the round trips hold. */
module Ciphers {
  import opened Js

  /** Code of the first letter of the case that `CaesarCipher.encrypt`
      assigns to a letter: anything below 91 is taken as upper case. */
  function Base(c: int): int { if c < 91 then 65 else 97 }

  /** The alphabet position of an ASCII letter, 0 for A and a, 25 for Z and z. */
  function Offset(c: int): int { c - Base(c) }

  /** One step of `CaesarCipher.encrypt`'s `map`: a letter is moved `shift`
      places along its own alphabet, any other code unit is left alone. */
  function ShiftUnit(c: CodeUnit, shift: int): (r: CodeUnit)
    ensures !IsLetter(c) ==> r == c
    ensures IsLetter(c) && shift >= 0 ==>
      IsUpper(r) == IsUpper(c) && IsLower(r) == IsLower(c) && Offset(r) == (Offset(c) + shift) % 26
  {
    if IsLetter(c) then Rem(Offset(c) + shift, 26) + Base(c) else c
  }

  /** `CaesarCipher.encrypt(text, shift)`. */
  function Encrypt(text: Text, shift: int): (r: Text)
    ensures |r| == |text|
    ensures forall i | 0 <= i < |text| :: !IsLetter(text[i]) ==> r[i] == text[i]
    ensures shift >= 0 ==> forall i | 0 <= i < |text| ::
      IsUpper(r[i]) == IsUpper(text[i]) && IsLower(r[i]) == IsLower(text[i])
  {
    seq(|text|, i requires 0 <= i < |text| => ShiftUnit(text[i], shift))
  }

  /** `CaesarCipher.decrypt(text, shift)`: encryption by the complementary shift. */
  function Decrypt(text: Text, shift: int): (r: Text)
    ensures |r| == |text|
  {
    Encrypt(text, 26 - shift)
  }

  /** `CaesarCipher.reverse(text)`: the code units in the opposite order. */
  function Reverse(text: Text): (r: Text)
    ensures |r| == |text|
  {
    if text == [] then [] else Reverse(text[1..]) + [text[0]]
  }

  /** One replacement made by the standalone `cipher`: the letter is
      lowercased, then moved `shift` places along the lower-case alphabet. */
  function CipherUnit(c: CodeUnit, shift: int): (r: CodeUnit)
    ensures !IsLetter(c) ==> r == c
  {
    if IsLetter(c) then Rem(ToLower(c) - 97 + shift, 26) + 97 else c
  }

  /** The standalone `cipher(text, shift, decrypt)`: decryption is rotation
      by `26 - shift`, and every letter comes out in lower case provided the
      effective shift is not negative. */
  function Cipher(text: Text, shift: int, decrypt: bool): (r: Text)
    ensures |r| == |text|
    ensures forall i | 0 <= i < |text| :: !IsLetter(text[i]) ==> r[i] == text[i]
    ensures (if decrypt then shift <= 26 else shift >= 0) ==>
      forall i | 0 <= i < |r| :: !IsUpper(r[i])
  {
    var s := if decrypt then 26 - shift else shift;
    seq(|text|, i requires 0 <= i < |text| => CipherUnit(text[i], s))
  }

  /** The text with every ASCII upper-case letter lowered. */
  function Lowered(text: Text): (r: Text)
    ensures |r| == |text|
    ensures forall i | 0 <= i < |r| :: !IsUpper(r[i])
  {
    seq(|text|, i requires 0 <= i < |text| => ToLower(text[i]))
  }

  /** Rotating a letter by `shift` and then by `26 - shift` restores it. */
  lemma ShiftUnitRoundTrip(c: CodeUnit, shift: int)
    requires 0 <= shift <= 26
    ensures ShiftUnit(ShiftUnit(c, shift), 26 - shift) == c
  {
    if IsLetter(c) {
      var o := Offset(c);
      var d := ShiftUnit(c, shift);
      if o + shift < 26 {
        assert Offset(d) == o + shift;
      } else {
        assert Offset(d) == o + shift - 26;
      }
      assert (Offset(d) + 26 - shift) % 26 == o;
    }
  }

  /** Decryption undoes encryption for every shift the page offers (0 to 26). */
  lemma DecryptEncrypt(text: Text, shift: int)
    requires 0 <= shift <= 26
    ensures Decrypt(Encrypt(text, shift), shift) == text
  {
    var e := Encrypt(text, shift);
    var d := Decrypt(e, shift);
    forall i | 0 <= i < |text| ensures d[i] == text[i] {
      ShiftUnitRoundTrip(text[i], shift);
    }
  }

  /** Encryption undoes decryption too, since decryption is encryption by
      a shift that is again in 0..26. */
  lemma EncryptDecrypt(text: Text, shift: int)
    requires 0 <= shift <= 26
    ensures Encrypt(Decrypt(text, shift), shift) == text
  {
    var d := Decrypt(text, shift);
    var e := Encrypt(d, shift);
    forall i | 0 <= i < |text| ensures e[i] == text[i] {
      ShiftUnitRoundTrip(text[i], 26 - shift);
    }
  }

  /** A shift of 0 or of 26 leaves every text unchanged. */
  lemma EncryptFullTurn(text: Text, shift: int)
    requires shift == 0 || shift == 26
    ensures Encrypt(text, shift) == text
  {
    var e := Encrypt(text, shift);
    forall i | 0 <= i < |text| ensures e[i] == text[i] {
      if IsLetter(text[i]) {
        assert Offset(e[i]) == Offset(text[i]);
      }
    }
  }

  /** Outside 0..26 the round trip can fail: with shift 27, 'z' encrypts to
      'a', and decryption by 26 - 27 = -1 then gives '`', because the
      remainder of -1 is -1 in JavaScript. */
  lemma RoundTripFailsBeyond26()
    ensures Encrypt([122], 27) == [97]
    ensures Decrypt([97], 27) == [96]
  {
  }

  /** `reverse` sends position i to position n - 1 - i. */
  lemma {:induction false} ReverseAt(text: Text, i: int)
    requires 0 <= i < |text|
    ensures Reverse(text)[i] == text[|text| - 1 - i]
  {
    if i < |text| - 1 {
      ReverseAt(text[1..], i);
    }
  }

  /** Reversing twice gives back the original text. */
  lemma ReverseReverse(text: Text)
    ensures Reverse(Reverse(text)) == text
  {
    var r := Reverse(text);
    var rr := Reverse(r);
    forall i | 0 <= i < |text| ensures rr[i] == text[i] {
      ReverseAt(r, i);
      ReverseAt(text, |text| - 1 - i);
    }
  }

  /** Rotating by `shift` and then by `26 - shift` lowercases a letter. */
  lemma CipherUnitRoundTrip(c: CodeUnit, shift: int)
    requires 0 <= shift <= 26
    ensures CipherUnit(CipherUnit(c, shift), 26 - shift) == ToLower(c)
  {
    if IsLetter(c) {
      var o := ToLower(c) - 97;
      var d := CipherUnit(c, shift);
      if o + shift < 26 {
        assert d - 97 == o + shift;
      } else {
        assert d - 97 == o + shift - 26;
      }
      assert ToLower(d) == d;
      assert (d - 97 + 26 - shift) % 26 == o;
    }
  }

  /** Decrypting with the standalone `cipher` gives back the lowercased
      original for every shift in 0..26: the case of the input is lost. */
  lemma CipherRoundTrip(text: Text, shift: int)
    requires 0 <= shift <= 26
    ensures Cipher(Cipher(text, shift, false), shift, true) == Lowered(text)
  {
    var e := Cipher(text, shift, false);
    var d := Cipher(e, shift, true);
    forall i | 0 <= i < |text| ensures d[i] == Lowered(text)[i] {
      CipherUnitRoundTrip(text[i], shift);
    }
  }

  /** For a non-negative shift the standalone `cipher` is
      `CaesarCipher.encrypt` followed by lowercasing. */
  lemma CipherIsLoweredEncrypt(text: Text, shift: int)
    requires shift >= 0
    ensures Cipher(text, shift, false) == Lowered(Encrypt(text, shift))
  {
    var c := Cipher(text, shift, false);
    var e := Encrypt(text, shift);
    forall i | 0 <= i < |text| ensures c[i] == Lowered(e)[i] {
      if IsLetter(text[i]) {
        assert Offset(e[i]) == (Offset(text[i]) + shift) % 26;
        assert ToLower(text[i]) - 97 == Offset(text[i]);
      }
    }
  }
}
