/** The block wrappers of src/octopus/common/aes/aes.go.

    The block cipher itself is a parameter: any keyed family of functions on 16-byte blocks with a
    left inverse. Blocks are processed independently of each other, as the wrappers do. */
module Aes {
  import opened Bytes

  /** Functions of a key and a block. */
  datatype KeyedFunctions = KeyedFunctions(
    encrypt: (seq<byte>, seq<byte>) -> seq<byte>,
    decrypt: (seq<byte>, seq<byte>) -> seq<byte>)

  ghost predicate IsCipher(c: KeyedFunctions) {
    forall key: seq<byte>, b: seq<byte> :: |b| == 16 ==>
      && |c.encrypt(key, b)| == 16
      && |c.decrypt(key, b)| == 16
      && c.decrypt(key, c.encrypt(key, b)) == b
  }

  type Cipher = c: KeyedFunctions | IsCipher(c)
    witness KeyedFunctions((key, b) => b, (key, b) => b)

  datatype Direction = Encrypting | Decrypting

  function Block(c: Cipher, d: Direction, key: seq<byte>, b: seq<byte>): (r: seq<byte>)
    requires |b| == 16
    ensures |r| == 16
  {
    if d == Encrypting then c.encrypt(key, b) else c.decrypt(key, b)
  }

  lemma BlockInverse(c: Cipher, key: seq<byte>, b: seq<byte>)
    requires |b| == 16
    ensures Block(c, Decrypting, key, Block(c, Encrypting, key, b)) == b
  {}

  datatype Error = BadKeySize | BadPadding

  predicate KeySize(n: nat) {
    n == 16 || n == 24 || n == 32
  }

  // ----- blocks -----

  /** Each whole block of s mapped, and zeros where no whole block was left. */
  function MapBlocks(c: Cipher, d: Direction, key: seq<byte>, s: seq<byte>): (t: seq<byte>)
    ensures |t| == |s|
  {
    if |s| < 16 then Zeros(|s|) else Block(c, d, key, s[..16]) + MapBlocks(c, d, key, s[16..])
  }

  /** The whole-block prefix of s, then zeros. */
  function WholeBlocks(s: seq<byte>): (t: seq<byte>)
    ensures |t| == |s|
  {
    if |s| < 16 then Zeros(|s|) else s[..16] + WholeBlocks(s[16..])
  }

  lemma {:induction false} WholeBlocksPrefix(s: seq<byte>, n: nat)
    requires 16 * n <= |s| < 16 * n + 16
    ensures WholeBlocks(s) == s[..16 * n] + Zeros(|s| - 16 * n)
  {
    if n == 0 {
    } else {
      WholeBlocksPrefix(s[16..], n - 1);
      assert s[..16 * n] == s[..16] + s[16..][..16 * (n - 1)];
    }
  }

  /** Decrypting block by block restores the whole blocks; the rest comes back as zeros. */
  lemma {:induction false} MapBlocksInverse(c: Cipher, key: seq<byte>, s: seq<byte>)
    ensures MapBlocks(c, Decrypting, key, MapBlocks(c, Encrypting, key, s)) == WholeBlocks(s)
    decreases |s|
  {
    hide Block;
    if |s| < 16 {
    } else {
      var e := Block(c, Encrypting, key, s[..16]);
      var t := MapBlocks(c, Encrypting, key, s);
      BlockInverse(c, key, s[..16]);
      assert t[..16] == e;
      assert t[16..] == MapBlocks(c, Encrypting, key, s[16..]);
      MapBlocksInverse(c, key, s[16..]);
    }
  }

  lemma FirstBlock(c: Cipher, d: Direction, key: seq<byte>, s: seq<byte>)
    requires |s| >= 16
    ensures MapBlocks(c, d, key, s)[..16] == Block(c, d, key, s[..16])
  {
    hide Block;
  }

  lemma OneBlock(c: Cipher, d: Direction, key: seq<byte>, b: seq<byte>)
    requires |b| == 16
    ensures MapBlocks(c, d, key, b) == Block(c, d, key, b)
  {
    hide Block;
    assert b[..16] == b && b[16..] == [];
    assert MapBlocks(c, d, key, []) == [];
  }

  // ----- padding -----

  function Pad(s: seq<byte>): (t: seq<byte>)
    ensures |t| >= 16 && s < t
  {
    hide PadWidth;
    s + Padding(PadWidth(|s|))
  }

  function PadWidth(n: nat): (w: nat)
    ensures 1 <= w <= 16 && n + w >= 16
  {
    if n < 16 then 16 - n else 16 - n % 16
  }

  lemma PadLength(s: seq<byte>)
    ensures |Pad(s)| == 16 * (|s| / 16 + 1)
  {
    PadWidthFills(|s|);
  }

  lemma PadWidthFills(n: nat)
    ensures n + PadWidth(n) == 16 * (n / 16 + 1)
  {}

  function Padding(n: nat): (t: seq<byte>)
    ensures |t| == n
  {
    seq(n, _ => ToByte(n))
  }

  function Unpad(s: seq<byte>): (r: Result<seq<byte>, Error>)
    requires |s| > 0
    ensures r.Ok? ==> r.value <= s
  {
    var unpadding := s[|s| - 1];
    if |s| <= unpadding || unpadding > 16 then Err(BadPadding) else Ok(s[..|s| - unpadding])
  }

  lemma UnpadOfPad(s: seq<byte>)
    ensures Unpad(Pad(s)) == if |s| > 0 then Ok(s) else Err(BadPadding)
  {
    hide ToByte, PadWidth;
    var padding := PadWidth(|s|);
    assert Pad(s)[|Pad(s)| - 1] == ToByte(padding);
    assert Pad(s)[..|s|] == s;
  }

  /** Every place of the padding holds the number of bytes added, which fill up the next block. */
  lemma PaddedBytes(s: seq<byte>)
    ensures |Pad(s)| == |s| + 16 - |s| % 16 && Pad(s)[..|s|] == s
    ensures forall k :: |s| <= k < |Pad(s)| ==> Pad(s)[k] == 16 - |s| % 16
  {
    hide PadWidth;
    PadWidthIs(|s|);
    var p := Padding(PadWidth(|s|));
    assert forall k :: |s| <= k < |Pad(s)| ==> Pad(s)[k] == p[k - |s|];
  }

  lemma PadWidthIs(n: nat)
    ensures PadWidth(n) == 16 - n % 16
  {
  }

  /** Block i of the result is block i of the input put through the cipher with the key; the bytes after
      the last whole block become zero. */
  lemma {:induction false} MappedBlock(c: Cipher, d: Direction, key: seq<byte>, s: seq<byte>, i: nat)
    requires 16 * i <= |s|
    ensures 16 * i + 16 <= |s| ==>
              MapBlocks(c, d, key, s)[16 * i..16 * i + 16]
              == if d == Encrypting then c.encrypt(key, s[16 * i..16 * i + 16])
                 else c.decrypt(key, s[16 * i..16 * i + 16])
    ensures 16 * i + 16 > |s| ==>
              forall k :: 16 * i <= k < |s| ==> MapBlocks(c, d, key, s)[k] == 0
  {
    var t := MapBlocks(c, d, key, s);
    if |s| < 16 {
    } else if i == 0 {
      assert t[0..16] == Block(c, d, key, s[0..16]);
    } else {
      var rest := MapBlocks(c, d, key, s[16..]);
      assert t[16..] == rest;
      MappedBlock(c, d, key, s[16..], i - 1);
      if 16 * i + 16 <= |s| {
        assert t[16 * i..16 * i + 16] == rest[16 * (i - 1)..16 * i];
        assert s[16 * i..16 * i + 16] == s[16..][16 * (i - 1)..16 * i];
      } else {
        assert forall k :: 16 * i <= k < |s| ==> t[k] == rest[k - 16];
      }
    }
  }

  // ----- the four wrappers -----

  function Encrypted(c: Cipher, origData: seq<byte>, key: seq<byte>): (r: Result<seq<byte>, Error>)
    ensures KeySize(|key|) ==> r.Ok? && |r.value| >= 16
  {
    if KeySize(|key|) then Ok(MapBlocks(c, Encrypting, key, Pad(origData))) else Err(BadKeySize)
  }

  function Decrypted(c: Cipher, crypted: seq<byte>, key: seq<byte>): Result<seq<byte>, Error>
    requires |crypted| > 0
  {
    if KeySize(|key|) then Unpad(MapBlocks(c, Decrypting, key, crypted)) else Err(BadKeySize)
  }

  function EncryptedNp(c: Cipher, origData: seq<byte>, key: seq<byte>): Result<seq<byte>, Error> {
    if KeySize(|key|) then Ok(MapBlocks(c, Encrypting, key, origData)) else Err(BadKeySize)
  }

  function DecryptedNp(c: Cipher, crypted: seq<byte>, key: seq<byte>): Result<seq<byte>, Error> {
    if KeySize(|key|) then Ok(MapBlocks(c, Decrypting, key, crypted)) else Err(BadKeySize)
  }

  /** Encrypt succeeds for keys of 16, 24 and 32 bytes; block i of the ciphertext is block i of the
      padded text put through the cipher. */
  lemma EncryptedBlock(c: Cipher, s: seq<byte>, key: seq<byte>, i: nat)
    ensures Encrypted(c, s, key).Ok? <==> |key| == 16 || |key| == 24 || |key| == 32
    ensures Encrypted(c, s, key).Ok? && i <= |s| / 16 ==>
              var e := Encrypted(c, s, key).value;
              && |e| == |s| + 16 - |s| % 16 && |Pad(s)| == |e| && 16 * i + 16 <= |e|
              && e[16 * i..16 * i + 16] == c.encrypt(key, Pad(s)[16 * i..16 * i + 16])
  {
    hide MapBlocks, Pad;
    PaddedBytes(s);
    if i <= |s| / 16 { MappedBlock(c, Encrypting, key, Pad(s), i); }
  }

  /** Decrypt takes off as many bytes as its last byte says, and fails when that is over 16 or leaves
      nothing; what it keeps of block i is block i of the ciphertext put through the inverse. */
  lemma DecryptedBlock(c: Cipher, s: seq<byte>, key: seq<byte>, i: nat)
    requires |s| > 0 && (|key| == 16 || |key| == 24 || |key| == 32)
    ensures var plain, r := MapBlocks(c, Decrypting, key, s), Decrypted(c, s, key);
            var last := plain[|s| - 1];
            && (r.Ok? <==> last <= 16 && last < |s|)
            && (r.Ok? ==> r.value == plain[..|s| - last])
            && (16 * i + 16 <= |s| ==>
                  plain[16 * i..16 * i + 16] == c.decrypt(key, s[16 * i..16 * i + 16]))
  {
    hide MapBlocks;
    if 16 * i + 16 <= |s| { MappedBlock(c, Decrypting, key, s, i); }
  }

  /** Decrypt undoes Encrypt exactly on the nonempty plaintexts; the encrypted empty one is an
      error. The ciphertext has the next strictly larger multiple of 16 bytes. */
  lemma DecryptOfEncrypt(c: Cipher, s: seq<byte>, key: seq<byte>)
    requires KeySize(|key|)
    ensures Encrypted(c, s, key).Ok?
    ensures var e := Encrypted(c, s, key).value;
            && |e| == 16 * (|s| / 16) + 16
            && Decrypted(c, e, key) == if |s| > 0 then Ok(s) else Err(BadPadding)
  {
    hide MapBlocks, Pad, Unpad;
    var p := Pad(s);
    PadLength(s);
    MapBlocksInverse(c, key, p);
    WholeBlocksPrefix(p, |s| / 16 + 1);
    assert p[..|p|] + Zeros(0) == p;
    UnpadOfPad(s);
  }

  /** Without padding, the whole blocks come back and the partial block is lost to zeros. */
  lemma DecryptNpOfEncryptNp(c: Cipher, s: seq<byte>, key: seq<byte>)
    requires KeySize(|key|)
    ensures EncryptedNp(c, s, key).Ok?
    ensures DecryptedNp(c, EncryptedNp(c, s, key).value, key)
         == Ok(s[..16 * (|s| / 16)] + Zeros(|s| % 16))
  {
    hide MapBlocks;
    MapBlocksInverse(c, key, s);
    WholeBlocksPrefix(s, |s| / 16);
  }

  /** The first block of a ciphertext holds the first 16 bytes of the padded plaintext. */
  lemma DecryptFirstBlock(c: Cipher, s: seq<byte>, key: seq<byte>)
    requires KeySize(|key|)
    ensures Encrypted(c, s, key).Ok?
    ensures var e := Encrypted(c, s, key).value;
            |e| >= 16 && Decrypted(c, e[..16], key) == Unpad(Pad(s)[..16])
  {
    hide MapBlocks, Pad, Unpad, Block;
    var b := Pad(s)[..16];
    FirstBlock(c, Encrypting, key, Pad(s));
    OneBlock(c, Decrypting, key, Block(c, Encrypting, key, b));
    BlockInverse(c, key, b);
  }

  /** block.Encrypt(dst[at:at+16], src) and block.Decrypt: one block written in place. */
  method WriteBlock(dst: array<byte>, at: nat, block: seq<byte>)
    requires |block| == 16 && at + 16 <= dst.Length
    modifies dst
    ensures dst[at..at + 16] == block
    ensures forall k :: 0 <= k < dst.Length && !(at <= k < at + 16) ==> dst[k] == old(dst[k])
  {
    for k := 0 to 16
      invariant forall j :: 0 <= j < k ==> dst[at + j] == block[j]
      invariant forall j :: 0 <= j < dst.Length && !(at <= j < at + k) ==> dst[j] == old(dst[j])
    {
      dst[at + k] := block[k];
    }
  }

  /** The loop shared by the wrappers: fill a zeroed buffer block by block. */
  method FillBlocks(c: Cipher, d: Direction, key: seq<byte>, data: seq<byte>) returns (out: array<byte>)
    ensures fresh(out) && out[..] == MapBlocks(c, d, key, data)
  {
    hide Block, MapBlocks;
    out := new byte[|data|](_ => 0);
    var quotient := |data| / 16;
    assert data[0..] == data;
    for i := 0 to quotient
      invariant out[..16 * i] + MapBlocks(c, d, key, data[16 * i..]) == MapBlocks(c, d, key, data)
      invariant forall k :: 16 * i <= k < out.Length ==> out[k] == 0
    {
      var at := 16 * i;
      ghost var done := out[..at];
      var block := Block(c, d, key, data[at..at + 16]);
      WriteBlock(out, at, block);
      BlockStep(c, d, key, data, at);
      PrefixStep(out[..], done, block, MapBlocks(c, d, key, data[at + 16..]), at);
    }
    PartialBlock(c, d, key, data[16 * quotient..]);
    assert out[..] == out[..16 * quotient] + Zeros(|data| - 16 * quotient);
  }

  lemma PartialBlock(c: Cipher, d: Direction, key: seq<byte>, s: seq<byte>)
    requires |s| < 16
    ensures MapBlocks(c, d, key, s) == Zeros(|s|)
  {}

  lemma PrefixStep(out: seq<byte>, done: seq<byte>, block: seq<byte>, rest: seq<byte>, at: nat)
    requires at + 16 <= |out| && |done| == at && |block| == 16
    requires out[..at] == done && out[at..at + 16] == block
    ensures out[..at + 16] + rest == done + (block + rest)
  {
    assert out[..at + 16] == done + block;
  }

  lemma BlockStep(c: Cipher, d: Direction, key: seq<byte>, data: seq<byte>, at: nat)
    requires at + 16 <= |data|
    ensures MapBlocks(c, d, key, data[at..])
         == Block(c, d, key, data[at..at + 16]) + MapBlocks(c, d, key, data[at + 16..])
  {
    hide Block;
    assert data[at..][..16] == data[at..at + 16] && data[at..][16..] == data[at + 16..];
  }

  method Encrypt(c: Cipher, origData: seq<byte>, key: seq<byte>) returns (r: Result<seq<byte>, Error>)
    ensures r == Encrypted(c, origData, key)
  {
    if !KeySize(|key|) {
      return Err(BadKeySize);
    }
    var crypted := FillBlocks(c, Encrypting, key, Pad(origData));
    return Ok(crypted[..]);
  }

  method Decrypt(c: Cipher, crypted: seq<byte>, key: seq<byte>) returns (r: Result<seq<byte>, Error>)
    requires |crypted| > 0
    ensures r == Decrypted(c, crypted, key)
  {
    if !KeySize(|key|) {
      return Err(BadKeySize);
    }
    var origData := FillBlocks(c, Decrypting, key, crypted);
    r := Unpad(origData[..]);
  }

  method EncryptNp(c: Cipher, origData: seq<byte>, key: seq<byte>) returns (r: Result<seq<byte>, Error>)
    ensures r == EncryptedNp(c, origData, key)
  {
    if !KeySize(|key|) {
      return Err(BadKeySize);
    }
    var crypted := FillBlocks(c, Encrypting, key, origData);
    return Ok(crypted[..]);
  }

  method DecryptNp(c: Cipher, crypted: seq<byte>, key: seq<byte>) returns (r: Result<seq<byte>, Error>)
    ensures r == DecryptedNp(c, crypted, key)
  {
    if !KeySize(|key|) {
      return Err(BadKeySize);
    }
    var origData := FillBlocks(c, Decrypting, key, crypted);
    return Ok(origData[..]);
  }
}
