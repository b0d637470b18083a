/** Password hashing for storage (kings_server/security.py): bcrypt, then Base64 of the
    bcrypt output, kept as text. bcrypt itself is not modelled: its three entry points are
    function values passed in, and `Laws` states what the module relies on. */
module Security {
  import opened Utf8
  import Base64

  /** The bcrypt library as the source uses it. `gensalt(rounds, entropy)` builds a salt of
      the given cost from random bytes (the randomness is a parameter); `hashpw(password,
      salt)` hashes; `isSalt(s)` is what `hashpw` accepts as its salt (it raises on anything
      else). A bcrypt hash embeds its salt, and a hash is itself a salt. */
  datatype Bcrypt = Bcrypt(
    gensalt: (nat, seq<Byte>) -> seq<Byte>,
    hashpw: (seq<Byte>, seq<Byte>) -> seq<Byte>,
    isSalt: seq<Byte> -> bool)

  /** The cost the source asks for when the caller gives none. */
  const DefaultSaltRounds: nat := 10

  /** The costs bcrypt's `gensalt` accepts; it raises on any other. */
  predicate IsRounds(rounds: nat) {
    4 <= rounds <= 31
  }

  /** What the model assumes of bcrypt: salts it generates are salts, hashes are salts, and
      re-hashing with a hash as the salt reproduces that hash (the salt is embedded). */
  ghost predicate Laws(b: Bcrypt) {
    && (forall rounds: nat, entropy: seq<Byte> ::
          IsRounds(rounds) ==> b.isSalt(b.gensalt(rounds, entropy)))
    && (forall password: seq<Byte>, salt: seq<Byte> ::
          b.isSalt(salt) ==>
            b.isSalt(b.hashpw(password, salt)) && b.hashpw(password, b.hashpw(password, salt)) == b.hashpw(password, salt))
  }

  /** The bcrypt bytes behind a hash the source would store. */
  function HashBytes(b: Bcrypt, password: string, entropy: seq<Byte>, saltRounds: nat): seq<Byte> {
    b.hashpw(Encode(password), b.gensalt(saltRounds, entropy))
  }

  /** `generate_password_hash`: the Base64 text of bcrypt(UTF-8 bytes of the password, fresh salt).
      The text decodes back to exactly the bcrypt bytes, has 4 * ceil(n / 3) characters for
      n hash bytes, and holds only Base64 letters and `=`. */
  function GeneratePasswordHash(b: Bcrypt, password: string, entropy: seq<Byte>, saltRounds: nat := DefaultSaltRounds): (r: string)
    requires IsRounds(saltRounds)
    ensures Base64.IsBase64(Encode(r))
    ensures Base64.Decode(Encode(r)) == HashBytes(b, password, entropy, saltRounds)
    ensures |r| == 4 * ((|HashBytes(b, password, entropy, saltRounds)| + 2) / 3)
    ensures forall i :: 0 <= i < |r| ==> IsBase64Char(r[i])
  {
    var hashed := b.hashpw(Encode(password), b.gensalt(saltRounds, entropy));
    TextOfEncoding(hashed);
    Decode(Base64.Encode(hashed))
  }

  /** The Base64 bytes of `h` read as text (`bytes.decode('utf-8')`) give back those bytes when
      re-encoded, one character per byte. */
  lemma TextOfEncoding(h: seq<Byte>)
    ensures WellFormed(Base64.Encode(h))
    ensures Encode(Decode(Base64.Encode(h))) == Base64.Encode(h)
    ensures Base64.IsBase64(Base64.Encode(h)) && Base64.Decode(Base64.Encode(h)) == h
    ensures |Decode(Base64.Encode(h))| == 4 * ((|h| + 2) / 3)
    ensures forall i :: 0 <= i < |Decode(Base64.Encode(h))| ==> IsBase64Char(Decode(Base64.Encode(h))[i])
  {
    var encoded := Base64.Encode(h);
    Base64.EncodeShape(h);
    Base64.DecodeEncode(h);
    Base64.EncodeIsAscii(h);
    AsciiDecode(encoded);
    EncodeDecode(encoded);
  }

  /** A character whose code is a Base64 letter or the padding `=`. */
  predicate IsBase64Char(c: char) {
    c as int < 256 && (Base64.IsLetter(c as int) || c as int == Base64.Pad)
  }

  /** A stored value `check_password_hash` can process without raising: its UTF-8 bytes are
      Base64 and decode to something bcrypt accepts as a salt. */
  predicate IsStoredHash(b: Bcrypt, encoded: string) {
    Base64.IsBase64(Encode(encoded)) && b.isSalt(Base64.Decode(Encode(encoded)))
  }

  /** `check_password_hash`: re-hash the password with the stored hash as the salt and compare. */
  function CheckPasswordHash(b: Bcrypt, encoded: string, password: string): (r: bool)
    requires IsStoredHash(b, encoded)
    ensures r <==> Base64.Encode(b.hashpw(Encode(password), Base64.Decode(Encode(encoded))))
                   == Base64.Encode(Base64.Decode(Encode(encoded)))
  {
    var hashed := Base64.Decode(Encode(encoded));
    var rehashed := b.hashpw(Encode(password), hashed);
    Base64.DecodeEncode(hashed);
    Base64.DecodeEncode(rehashed);
    rehashed == hashed
  }

  /** Under the bcrypt laws every generated hash can be checked. */
  lemma GeneratedIsStored(b: Bcrypt, password: string, entropy: seq<Byte>, saltRounds: nat)
    requires Laws(b) && IsRounds(saltRounds)
    ensures IsStoredHash(b, GeneratePasswordHash(b, password, entropy, saltRounds))
  {
  }

  /** Checking a password against the hash generated from it succeeds. */
  lemma CheckAfterGenerate(b: Bcrypt, password: string, entropy: seq<Byte>, saltRounds: nat)
    requires Laws(b) && IsRounds(saltRounds)
    ensures IsStoredHash(b, GeneratePasswordHash(b, password, entropy, saltRounds))
    ensures CheckPasswordHash(b, GeneratePasswordHash(b, password, entropy, saltRounds), password)
  {
  }
}
