/** The CA-key backup envelope: the VENYACA1 authenticated form that export writes, and the legacy
    CBC form that restore still reads. Key derivation and both ciphers are opaque; `Lawful` names the
    only facts assumed of them. */
module Backup {
  import opened ByteArrays
  import opened Sequences
  import opened Wrappers

  const MAGIC: Bytes := [0x56, 0x45, 0x4E, 0x59, 0x41, 0x43, 0x41, 0x31]
  const MIN_PASSPHRASE_CODE_POINTS := 15
  const BLOCK := 16

  datatype Error = TooSmallGcm | GcmAuthentication | TooSmall | CbcFailed | BadPadding | EmptyPassphrase | ShortPassphrase

  /** derive(salt, passphrase); seal and open take key and nonce; encrypt and decrypt key and iv. */
  datatype Ciphers = Ciphers(
    derive: (Bytes, string) -> Bytes,
    seal: (Bytes, Bytes, Bytes) -> Bytes,
    open: (Bytes, Bytes, Bytes) -> Option<Bytes>,
    encrypt: (Bytes, Bytes, Bytes) -> Bytes,
    decrypt: (Bytes, Bytes, Bytes) -> Option<Bytes>
  ) {
    ghost predicate Lawful() {
      && (forall k: Bytes, n: Bytes, m: Bytes :: open(k, n, seal(k, n, m)) == Some(m) && |seal(k, n, m)| == |m| + 16)
      && (forall k: Bytes, n: Bytes, c: Bytes | open(k, n, c).Some? :: |c| == |open(k, n, c).value| + 16)
      && (forall k: Bytes, v: Bytes, m: Bytes | |m| % BLOCK == 0 ::
            decrypt(k, v, encrypt(k, v, m)) == Some(m) && |encrypt(k, v, m)| == |m|)
    }
  }

  /** There are such ciphers. */
  lemma LawfulCiphers() returns (c: Ciphers)
    ensures c.Lawful()
  {
    c := Ciphers(
      (_, _) => [],
      (_, _, m) => m + Zeros(16),
      (_, _, m) => if |m| >= 16 then Some(m[..|m| - 16]) else None,
      (_, _, m) => m,
      (_, _, m) => Some(m)
    );
    forall m: Bytes ensures (m + Zeros(16))[..|m + Zeros(16)| - 16] == m {}
  }

  // ----- PKCS#7 (section 6.3 of RFC 5652)

  function Unpad(padded: Bytes): Option<Bytes> {
    if padded == [] then None
    else
      var last := padded[|padded| - 1];
      var pad := last as int;
      if pad < 1 || pad > BLOCK || pad > |padded| || padded[|padded| - pad..] != Repeat(last, pad) then None
      else Some(padded[..|padded| - pad])
  }

  function PadSize(length: nat): (p: nat)
    ensures 1 <= p <= BLOCK
  {
    BLOCK - length % BLOCK
  }

  function Pad(m: Bytes): Bytes {
    m + Repeat(Byte(PadSize(|m|)), PadSize(|m|))
  }

  /** Unpadding accepts exactly a message followed by p copies of p with 1 <= p <= 16, and returns
      the message. */
  lemma UnpadAccepts(padded: Bytes, m: Bytes)
    ensures Unpad(padded) == Some(m) <==> exists p: nat :: 1 <= p <= BLOCK && padded == m + Repeat(Byte(p), p)
  {
    hide Byte, Unpad;
    if Unpad(padded) == Some(m) {
      UnpadGives(padded);
      var p := padded[|padded| - 1] as int;
      ByteOfValue(padded[|padded| - 1], p);
      assert padded == m + Repeat(Byte(p), p);
    }
    if exists p: nat :: 1 <= p <= BLOCK && padded == m + Repeat(Byte(p), p) {
      var p: nat :| 1 <= p <= BLOCK && padded == m + Repeat(Byte(p), p);
      ByteValue(p);
      UnpadOf(m, Byte(p), p);
    }
  }

  lemma UnpadGives(padded: Bytes)
    requires Unpad(padded).Some?
    ensures padded != []
    ensures var p := padded[|padded| - 1] as int;
            1 <= p <= BLOCK && padded == Unpad(padded).value + Repeat(padded[|padded| - 1], p)
  {}

  lemma UnpadOf(m: Bytes, b: bv8, p: nat)
    requires b as int == p && 1 <= p <= BLOCK
    ensures Unpad(m + Repeat(b, p)) == Some(m)
  {
    var padded := m + Repeat(b, p);
    assert padded[|padded| - 1] == b;
    assert padded[|padded| - p..] == Repeat(b, p);
    assert padded[..|padded| - p] == m;
  }

  lemma ByteOfValue(b: bv8, n: nat)
    requires n < 256 && b as int == n
    ensures Byte(n) == b
  {
    ByteValue(n);
    hide Byte;
    SameValue(Byte(n), b);
  }

  lemma SameValue(a: bv8, b: bv8)
    requires a as int == b as int
    ensures a == b
  {}

  lemma PadSizeIs(length: nat, p: nat)
    requires 1 <= p <= BLOCK
    ensures (length + p) % BLOCK == 0 <==> p == PadSize(length)
  {}

  lemma PadForm(m: Bytes)
    ensures Pad(m) == m + Repeat(Byte(PadSize(|m|)), PadSize(|m|))
  {
    hide Byte, Repeat;
  }

  /** On whole blocks padding and unpadding undo each other both ways. */
  lemma PadUnpad(m: Bytes, padded: Bytes)
    ensures |Pad(m)| % BLOCK == 0 && |Pad(m)| >= BLOCK && Unpad(Pad(m)) == Some(m)
    ensures |padded| % BLOCK == 0 && Unpad(padded).Some? ==> Pad(Unpad(padded).value) == padded
  {
    hide Byte, Repeat, Unpad, Pad, PadSize;
    PadForm(m);
    PadSizeIs(|m|, PadSize(|m|));
    UnpadAccepts(Pad(m), m);
    WholeIsBlock(|Pad(m)|);
    if |padded| % BLOCK == 0 && Unpad(padded).Some? {
      var m' := Unpad(padded).value;
      UnpadAccepts(padded, m');
      var p: nat :| 1 <= p <= BLOCK && padded == m' + Repeat(Byte(p), p);
      PadSizeIs(|m'|, p);
      PadForm(m');
    }
  }

  lemma WholeIsBlock(n: nat)
    requires n % BLOCK == 0 && n > 0
    ensures n >= BLOCK
  {}

  // ----- the two envelopes

  function Envelope(c: Ciphers, salt: Bytes, nonce: Bytes, passphrase: string, key: Bytes): Bytes {
    MAGIC + salt + nonce + c.seal(c.derive(salt, passphrase), nonce, key)
  }

  function LegacyEnvelope(c: Ciphers, salt: Bytes, iv: Bytes, passphrase: string, key: Bytes): Bytes {
    salt + iv + c.encrypt(c.derive(salt, passphrase), iv, Pad(key))
  }

  function DecryptCanonical(c: Ciphers, body: Bytes, passphrase: string): Result<Bytes, Error> {
    if |body| < 16 + 12 + 16 then Err(TooSmallGcm)
    else match c.open(c.derive(body[..16], passphrase), body[16..28], body[28..])
         case None => Err(GcmAuthentication)
         case Some(m) => Ok(m)
  }

  function DecryptLegacy(c: Ciphers, data: Bytes, passphrase: string): Result<Bytes, Error> {
    if |data| < 16 + 16 + 16 then Err(TooSmall)
    else match c.decrypt(c.derive(data[..16], passphrase), data[16..32], data[32..])
         case None => Err(CbcFailed)
         case Some(padded) =>
           match Unpad(padded)
           case None => Err(BadPadding)
           case Some(m) => Ok(m)
  }

  function DecryptBackup(c: Ciphers, data: Bytes, passphrase: string): Result<Bytes, Error> {
    if MAGIC <= data then DecryptCanonical(c, data[|MAGIC|..], passphrase) else DecryptLegacy(c, data, passphrase)
  }

  predicate IsBelowFloor(passphrase: Option<string>) {
    passphrase.Some? && |passphrase.value| < MIN_PASSPHRASE_CODE_POINTS
  }

  /** The backup arm of restore: the floor is measured before anything is decrypted. */
  function RestoreBackup(c: Ciphers, data: Bytes, passphrase: string): Result<Bytes, Error> {
    if IsBelowFloor(Some(passphrase)) then Err(ShortPassphrase) else DecryptBackup(c, data, passphrase)
  }

  /** What export refuses or writes, once the passphrase is typed twice alike. */
  function ExportBlob(c: Ciphers, isSpace: char -> bool, passphrase: string, salt: Bytes, nonce: Bytes, key: Bytes): Result<Bytes, Error> {
    if forall x | x in passphrase :: isSpace(x) then Err(EmptyPassphrase)
    else if IsBelowFloor(Some(passphrase)) then Err(ShortPassphrase)
    else Ok(Envelope(c, salt, nonce, passphrase, key))
  }

  /** Every blob that export writes is accepted by restore with the same passphrase, length floor
      included, and yields the same key. */
  lemma ExportThenRestore(c: Ciphers, isSpace: char -> bool, passphrase: string, salt: Bytes, nonce: Bytes, key: Bytes)
    requires c.Lawful() && |salt| == 16 && |nonce| == 12
    requires ExportBlob(c, isSpace, passphrase, salt, nonce, key).Ok?
    ensures RestoreBackup(c, ExportBlob(c, isSpace, passphrase, salt, nonce, key).value, passphrase) == Ok(key)
  {
    var sealed := c.seal(c.derive(salt, passphrase), nonce, key);
    var blob := Envelope(c, salt, nonce, passphrase, key);
    assert blob == MAGIC + (salt + nonce + sealed);
    var body := salt + nonce + sealed;
    assert blob[|MAGIC|..] == body;
    assert body[..16] == salt && body[16..28] == nonce && body[28..] == sealed;
  }

  /** A legacy blob restores to its key exactly when its random salt does not begin with the eight
      bytes of the magic; when it does, the same bytes are read as the canonical form, whose message
      is too short to be the key. */
  lemma LegacyRestores(c: Ciphers, passphrase: string, salt: Bytes, iv: Bytes, key: Bytes)
    requires c.Lawful() && |salt| == 16 && |iv| == 16
    ensures var blob := LegacyEnvelope(c, salt, iv, passphrase, key);
            && (MAGIC <= blob <==> MAGIC <= salt)
            && (DecryptBackup(c, blob, passphrase) == Ok(key) <==> !(MAGIC <= salt))
  {
    hide Unpad, Pad;
    var sealed := c.encrypt(c.derive(salt, passphrase), iv, Pad(key));
    var blob := LegacyEnvelope(c, salt, iv, passphrase, key);
    PadUnpad(key, []);
    PadLength(key);
    assert blob == salt + (iv + sealed);
    assert blob[..|MAGIC|] == salt[..|MAGIC|];
    assert blob[..16] == salt && blob[16..32] == iv && blob[32..] == sealed;
  }

  lemma PadLength(m: Bytes)
    ensures |Pad(m)| <= |m| + BLOCK
  {}

  /** What restore accepts: a passphrase of at least 15 characters, and a file that is magic, salt,
      nonce and a message sealed under it, or salt, iv and a whole padded message encrypted under it. */
  lemma RestoreAccepts(c: Ciphers, data: Bytes, passphrase: string, key: Bytes)
    ensures RestoreBackup(c, data, passphrase) == Ok(key) <==>
            && |passphrase| >= 15
            && if MAGIC <= data
               then |data| >= 52 && c.open(c.derive(data[8..24], passphrase), data[24..36], data[36..]) == Some(key)
               else
                 && |data| >= 48
                 && exists p: nat :: 1 <= p <= 16 &&
                      c.decrypt(c.derive(data[..16], passphrase), data[16..32], data[32..]) == Some(key + Repeat(Byte(p), p))
    ensures |passphrase| < 15 ==> RestoreBackup(c, data, passphrase) == Err(ShortPassphrase)
  {
    if MAGIC <= data {
      CanonicalAccepts(c, data[8..], passphrase, key);
      if |data| >= 52 {
        assert data[8..][..16] == data[8..24] && data[8..][16..28] == data[24..36] && data[8..][28..] == data[36..];
      }
    } else {
      LegacyAccepts(c, data, passphrase, key);
    }
    hide DecryptCanonical, DecryptLegacy, Byte, Repeat;
  }

  lemma CanonicalAccepts(c: Ciphers, body: Bytes, passphrase: string, key: Bytes)
    ensures DecryptCanonical(c, body, passphrase) == Ok(key) <==>
            |body| >= 44 && c.open(c.derive(body[..16], passphrase), body[16..28], body[28..]) == Some(key)
  {}

  lemma LegacyAccepts(c: Ciphers, data: Bytes, passphrase: string, key: Bytes)
    ensures DecryptLegacy(c, data, passphrase) == Ok(key) <==>
            |data| >= 48 &&
            exists p: nat :: 1 <= p <= 16 &&
              c.decrypt(c.derive(data[..16], passphrase), data[16..32], data[32..]) == Some(key + Repeat(Byte(p), p))
  {
    hide Unpad, Byte, Repeat;
    if |data| >= 48 {
      var padded := c.decrypt(c.derive(data[..16], passphrase), data[16..32], data[32..]);
      if padded.Some? {
        UnpadAccepts(padded.value, key);
      }
    }
  }

  /** What export writes, and when: a passphrase that is not all white space and has 15 characters. */
  lemma ExportAccepts(c: Ciphers, isSpace: char -> bool, passphrase: string, salt: Bytes, nonce: Bytes, key: Bytes, blob: Bytes)
    ensures ExportBlob(c, isSpace, passphrase, salt, nonce, key) == Ok(blob) <==>
            && (exists x | x in passphrase :: !isSpace(x)) && |passphrase| >= 15
            && blob == MAGIC + (salt + (nonce + c.seal(c.derive(salt, passphrase), nonce, key)))
  {
    var sealed := c.seal(c.derive(salt, passphrase), nonce, key);
    assert MAGIC + salt + nonce + sealed == MAGIC + (salt + (nonce + sealed));
  }

  // ----- the prompt loop of export

  /** The first pair of entries that agree, from one prompt on; None when input ends before. */
  function FirstMatch(typed: seq<(string, string)>): Option<string> {
    if typed == [] then None
    else if typed[0].0 == typed[0].1 then Some(typed[0].0)
    else FirstMatch(typed[1..])
  }

  /** Asks until the entry and its confirmation agree. */
  method PromptTwice(typed: seq<(string, string)>) returns (passphrase: Option<string>)
    ensures passphrase == FirstMatch(typed)
    ensures passphrase.None? <==> forall k | 0 <= k < |typed| :: typed[k].0 != typed[k].1
    ensures passphrase.Some? ==>
              exists k | 0 <= k < |typed| ::
                typed[k] == (passphrase.value, passphrase.value) && forall m | 0 <= m < k :: typed[m].0 != typed[m].1
  {
    passphrase := None;
    var i := 0;
    while passphrase.None? && i < |typed|
      invariant i <= |typed|
      invariant passphrase.None? ==> FirstMatch(typed) == FirstMatch(typed[i..])
      invariant passphrase.None? ==> forall k | 0 <= k < i :: typed[k].0 != typed[k].1
      invariant passphrase.Some? ==>
                  && FirstMatch(typed) == passphrase && i > 0 && typed[i - 1] == (passphrase.value, passphrase.value)
                  && forall m | 0 <= m < i - 1 :: typed[m].0 != typed[m].1
      decreases passphrase.None?, |typed| - i
    {
      assert typed[i..][1..] == typed[i + 1..];
      if typed[i].0 == typed[i].1 {
        passphrase := Some(typed[i].0);
      }
      i := i + 1;
    }
  }
}
