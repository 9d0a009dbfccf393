/**
 * The wallet generator: picks the chain from the user's selector, draws a
 * secp256k1 private key by rejection sampling, and derives the receiving
 * address, either the EVM one or a Tron Base58Check address.
 *
 * Keccak-256, SHA-256 (FIPS 180-4), the elliptic-curve key object and its
 * formatting are not modelled; they arrive as the functions of an `Oracles`
 * value. The random-number generator is a finite sequence of 32-byte draws.
 */
module WalletGenerator {
  import opened Wrappers
  import opened Bytes
  import Base58

  type Bytes32 = s: seq<byte> | |s| == 32 witness Zeros(32)
  type Bytes64 = s: seq<byte> | |s| == 64 witness Zeros(64)

  /** The order n of the secp256k1 base point (SEC 2, section 2.4.1). */
  const Secp256k1N: nat := 0xFFFFFFFF_FFFFFFFF_FFFFFFFF_FFFFFFFE_BAAEDCE6_AF48A03B_BFD25E8C_D0364141

  /** The same n as 32 big-endian bytes. */
  const Secp256k1NBytes: seq<byte> :=
    [0xFF, 0xFF, 0xFF, 0xFF, 0xFF, 0xFF, 0xFF, 0xFF, 0xFF, 0xFF, 0xFF, 0xFF, 0xFF, 0xFF, 0xFF, 0xFE,
     0xBA, 0xAE, 0xDC, 0xE6, 0xAF, 0x48, 0xA0, 0x3B, 0xBF, 0xD2, 0x5E, 0x8C, 0xD0, 0x36, 0x41, 0x41]

  /** The version byte that starts every Tron main-net address. */
  const TronVersion: byte := 0x41

  /**
   * What the generator takes from libraries it does not implement: the two
   * hashes, the 64-byte public key (x and y, without the 0x04 prefix) of a
   * private key, and the hex and EVM-address text of a key.
   */
  datatype Oracles = Oracles(
    keccak256: seq<byte> -> Bytes32,
    sha256: seq<byte> -> Bytes32,
    publicKey: Bytes32 -> Bytes64,
    privateKeyHex: Bytes32 -> string,
    evmAddress: Bytes32 -> string)

  datatype Wallet = Wallet(privateKeyHex: string, address: string)

  datatype ChainKind = EvmLike | Tron

  // ---------------------------------------------------------------------------
  // The private-key range check and the rejection-sampling loop

  /** A private key of secp256k1: 32 bytes whose big-endian value d has 1 <= d < n (SEC 1, section 3.2.1). */
  predicate ValidKey(s: seq<byte>)
  {
    |s| == 32 && 1 <= BeValue(s) < Secp256k1N
  }

  /**
   * The range check on a key candidate: false for null or a length other
   * than 32, otherwise whether the value lies in [1, n). Read byte-wise,
   * the candidate is valid when some byte is nonzero and it sorts below n.
   */
  function IsValidSecp256k1PrivateKey(priv: array?<byte>): (valid: bool)
    reads priv
    ensures valid <==> priv != null && ValidKey(priv[..])
    ensures valid <==> priv != null && priv.Length == 32
                       && (exists i :: 0 <= i < 32 && priv[i] != 0)
                       && LexLess(priv[..], Secp256k1NBytes)
  {
    if priv == null || priv.Length != 32 then false
    else
      ValidKeyBytewise(priv[..]);
      var d := BeValue(priv[..]);
      d >= 1 && d < Secp256k1N
  }

  /** The first valid draw, if any: what the rejection-sampling loop settles on. */
  function FirstValid(draws: seq<Bytes32>): Option<Bytes32>
  {
    if draws == [] then None
    else if ValidKey(draws[0]) then Some(draws[0])
    else FirstValid(draws[1..])
  }

  /**
   * Draws candidates into one 32-byte buffer until one passes the range
   * check. The generator's draws are `draws`; when they run out before a
   * valid one appears the result is None.
   */
  method CreateEthKey(draws: seq<Bytes32>) returns (key: Option<Bytes32>)
    ensures key == FirstValid(draws)
    ensures key.Some? ==> ValidKey(key.value)
  {
    var priv := new byte[32];
    var drawn := 0;
    while true
      invariant 0 <= drawn <= |draws|
      invariant FirstValid(draws) == FirstValid(draws[drawn..])
      decreases |draws| - drawn
    {
      if drawn == |draws| {
        return None;
      }
      BlockCopy(draws[drawn], 0, priv, 0, 32);
      assert priv[..] == draws[drawn];
      assert draws[drawn..][1..] == draws[drawn + 1..];
      drawn := drawn + 1;
      if IsValidSecp256k1PrivateKey(priv) {
        return Some(priv[..]);
      }
    }
  }

  // ---------------------------------------------------------------------------
  // Tron address framing

  /** SHA-256 applied twice: the checksum hash of Base58Check. */
  function DoubleSha256(sha256: seq<byte> -> Bytes32, data: seq<byte>): Bytes32
  {
    sha256(sha256(data))
  }

  /** The bytes a Base58Check address encodes: the payload, then the first 4 bytes of its double SHA-256. */
  function CheckBuffer(sha256: seq<byte> -> Bytes32, payload: seq<byte>): (b: seq<byte>)
    ensures |b| == |payload| + 4
    ensures forall i :: 0 <= i < |payload| ==> b[i] == payload[i]
    ensures forall i :: 0 <= i < 4 ==> b[|payload| + i] == DoubleSha256(sha256, payload)[i]
  {
    payload + DoubleSha256(sha256, payload)[..4]
  }

  /** The Tron payload of a Keccak-256 digest: the version byte, then the digest's last 20 bytes. */
  function TronPayload(hash: Bytes32): (p: seq<byte>)
    ensures |p| == 21 && p[0] == TronVersion
    ensures forall i :: 1 <= i < 21 ==> p[i] == hash[i + 11]
  {
    [TronVersion] + hash[12..]
  }

  /** The Tron address of a private key. */
  function TronAddress(o: Oracles, priv: Bytes32): string
  {
    Base58.Encoding(CheckBuffer(o.sha256, TronPayload(o.keccak256(o.publicKey(priv)))))
  }

  /** The 21-byte payload: version 0x41 followed by digest bytes 12..31, copied through a 20-byte buffer. */
  method BuildTronPayload(hash: Bytes32) returns (payload: array<byte>)
    ensures fresh(payload)
    ensures payload.Length == 21 && payload[0] == TronVersion
    ensures forall i :: 1 <= i < 21 ==> payload[i] == hash[i + 11]
    ensures payload[..] == TronPayload(hash)
  {
    var address20 := new byte[20];
    BlockCopy(hash, 12, address20, 0, 20);
    payload := new byte[21];
    payload[0] := TronVersion;
    BlockCopy(address20[..], 0, payload, 1, 20);
    assert payload[..] == TronPayload(hash);
  }

  /**
   * Base58Check: appends the 4-byte checksum to a copy of the payload and
   * Base58-encodes the result, which therefore decodes back to payload and checksum.
   */
  method Base58CheckEncode(sha256: seq<byte> -> Bytes32, payload: array<byte>) returns (address: string)
    ensures address == Base58.Encoding(CheckBuffer(sha256, payload[..]))
    ensures Base58.Decode(address) == Some(payload[..] + DoubleSha256(sha256, payload[..])[..4])
  {
    var checksum := DoubleSha256(sha256, payload[..]);
    var withChecksum := new byte[payload.Length + 4];
    BlockCopy(payload[..], 0, withChecksum, 0, payload.Length);
    BlockCopy(checksum, 0, withChecksum, payload.Length, 4);
    assert withChecksum[..] == CheckBuffer(sha256, payload[..]);
    address := Base58.Encode(withChecksum);
    Base58.DecodeEncoding(CheckBuffer(sha256, payload[..]));
  }

  // ---------------------------------------------------------------------------
  // The two generators and the dispatch

  /** The wallet a valid key yields on a chain: its hex text and the chain's address for it. */
  function WalletFor(o: Oracles, kind: ChainKind, key: Option<Bytes32>): Option<Wallet>
  {
    match key
    case None => None
    case Some(priv) =>
      Some(Wallet(o.privateKeyHex(priv), if kind == Tron then TronAddress(o, priv) else o.evmAddress(priv)))
  }

  method GenerateEthLike(o: Oracles, draws: seq<Bytes32>) returns (w: Option<Wallet>)
    ensures w == WalletFor(o, EvmLike, FirstValid(draws))
  {
    var key := CreateEthKey(draws);
    if key.None? {
      return None;
    }
    var privateKeyHex := o.privateKeyHex(key.value);
    var address := o.evmAddress(key.value);
    w := Some(Wallet(privateKeyHex, address));
  }

  method GenerateTron(o: Oracles, draws: seq<Bytes32>) returns (w: Option<Wallet>)
    ensures w == WalletFor(o, Tron, FirstValid(draws))
  {
    var key := CreateEthKey(draws);
    if key.None? {
      return None;
    }
    var privateKeyHex := o.privateKeyHex(key.value);
    var pubNoPrefix := o.publicKey(key.value);
    var hash := o.keccak256(pubNoPrefix);
    var tronPayload := BuildTronPayload(hash);
    var tronBase58 := Base58CheckEncode(o.sha256, tronPayload);
    w := Some(Wallet(privateKeyHex, tronBase58));
  }

  /** The white-space characters of .NET's char.IsWhiteSpace (Unicode Zs, Zl, Zp and the controls 9-13, 0x85). */
  predicate IsWhiteSpace(c: char)
  {
    c == ' ' || '\t' <= c <= '\r' || c == '\U{0085}' || c == '\U{00A0}' || c == '\U{1680}'
    || '\U{2000}' <= c <= '\U{200A}' || c == '\U{2028}' || c == '\U{2029}' || c == '\U{202F}'
    || c == '\U{205F}' || c == '\U{3000}'
  }

  predicate IsNullOrWhiteSpace(s: Option<string>)
  {
    s.None? || forall i :: 0 <= i < |s.value| ==> IsWhiteSpace(s.value[i])
  }

  function ToUpperAscii(c: char): char
  {
    if 'a' <= c <= 'z' then (c as int - 32) as char else c
  }

  /** Ordinal comparison ignoring case: equal lengths and equal characters after upper-casing. */
  predicate EqualsIgnoreCase(a: string, b: string)
  {
    |a| == |b| && forall i :: 0 <= i < |a| ==> ToUpperAscii(a[i]) == ToUpperAscii(b[i])
  }

  /** The chain a selector picks: blank means "ERC20", and only "TRC20" in any letter case picks Tron. */
  function ChainOf(chain: Option<string>): (kind: ChainKind)
    ensures IsNullOrWhiteSpace(chain) ==> kind == EvmLike
    ensures kind == Tron <==> chain.Some? && chain.value in TronSpellings
  {
    var c := if IsNullOrWhiteSpace(chain) then "ERC20" else chain.value;
    TronSelector(c);
    assert chain.Some? && chain.value in TronSpellings ==> !IsWhiteSpace(chain.value[0]);
    if EqualsIgnoreCase(c, "TRC20") then Tron else EvmLike
  }

  /** The eight spellings of TRC20 that differ only in the case of T, R and C. */
  const TronSpellings: set<string> :=
    {"TRC20", "TRc20", "TrC20", "Trc20", "tRC20", "tRc20", "trC20", "trc20"}

  method Generate(chain: Option<string>, o: Oracles, draws: seq<Bytes32>) returns (w: Option<Wallet>)
    ensures w == WalletFor(o, ChainOf(chain), FirstValid(draws))
    ensures w.None? <==> forall i :: 0 <= i < |draws| ==> !ValidKey(draws[i])
  {
    var c := chain;
    if IsNullOrWhiteSpace(c) {
      c := Some("ERC20");
    }
    if EqualsIgnoreCase(c.value, "TRC20") {
      w := GenerateTron(o, draws);
    } else {
      w := GenerateEthLike(o, draws);
    }
    FirstValidNone(draws);
  }

  // ---------------------------------------------------------------------------
  // Lemmas

  /** n written as bytes has the value n. */
  lemma Secp256k1NValue()
    ensures |Secp256k1NBytes| == 32
    ensures BeValue(Secp256k1NBytes) == Secp256k1N
  {
    NPrefix32();
    assert Secp256k1NBytes[..32] == Secp256k1NBytes;
  }

  // NPrefix4 .. NPrefix32 evaluate the value of n's bytes four at a time;
  // the split only keeps each solver query small.

  lemma NPrefix4()
    ensures BeValue(Secp256k1NBytes[..4]) == 0xFFFFFFFF
  {
    var s := Secp256k1NBytes;
    assert s[..0] == [];
    assert s[0] == 0xFF;
    BeValuePrefixStep(s, 0);
    assert BeValue(s[..1]) == 0xFF;
    assert s[1] == 0xFF;
    BeValuePrefixStep(s, 1);
    assert BeValue(s[..2]) == 0xFFFF;
    assert s[2] == 0xFF;
    BeValuePrefixStep(s, 2);
    assert BeValue(s[..3]) == 0xFFFFFF;
    assert s[3] == 0xFF;
    BeValuePrefixStep(s, 3);
  }

  lemma NPrefix8()
    ensures BeValue(Secp256k1NBytes[..8]) == 0xFFFFFFFF_FFFFFFFF
  {
    var s := Secp256k1NBytes;
    NPrefix4();
    assert s[4] == 0xFF;
    BeValuePrefixStep(s, 4);
    assert BeValue(s[..5]) == 0xFF_FFFFFFFF;
    assert s[5] == 0xFF;
    BeValuePrefixStep(s, 5);
    assert BeValue(s[..6]) == 0xFFFF_FFFFFFFF;
    assert s[6] == 0xFF;
    BeValuePrefixStep(s, 6);
    assert BeValue(s[..7]) == 0xFFFFFF_FFFFFFFF;
    assert s[7] == 0xFF;
    BeValuePrefixStep(s, 7);
  }

  lemma NPrefix12()
    ensures BeValue(Secp256k1NBytes[..12]) == 0xFFFFFFFF_FFFFFFFF_FFFFFFFF
  {
    var s := Secp256k1NBytes;
    NPrefix8();
    assert s[8] == 0xFF;
    BeValuePrefixStep(s, 8);
    assert BeValue(s[..9]) == 0xFF_FFFFFFFF_FFFFFFFF;
    assert s[9] == 0xFF;
    BeValuePrefixStep(s, 9);
    assert BeValue(s[..10]) == 0xFFFF_FFFFFFFF_FFFFFFFF;
    assert s[10] == 0xFF;
    BeValuePrefixStep(s, 10);
    assert BeValue(s[..11]) == 0xFFFFFF_FFFFFFFF_FFFFFFFF;
    assert s[11] == 0xFF;
    BeValuePrefixStep(s, 11);
  }

  lemma NPrefix16()
    ensures BeValue(Secp256k1NBytes[..16]) == 0xFFFFFFFF_FFFFFFFF_FFFFFFFF_FFFFFFFE
  {
    var s := Secp256k1NBytes;
    NPrefix12();
    assert s[12] == 0xFF;
    BeValuePrefixStep(s, 12);
    assert BeValue(s[..13]) == 0xFF_FFFFFFFF_FFFFFFFF_FFFFFFFF;
    assert s[13] == 0xFF;
    BeValuePrefixStep(s, 13);
    assert BeValue(s[..14]) == 0xFFFF_FFFFFFFF_FFFFFFFF_FFFFFFFF;
    assert s[14] == 0xFF;
    BeValuePrefixStep(s, 14);
    assert BeValue(s[..15]) == 0xFFFFFF_FFFFFFFF_FFFFFFFF_FFFFFFFF;
    assert s[15] == 0xFE;
    BeValuePrefixStep(s, 15);
  }

  lemma NPrefix20()
    ensures BeValue(Secp256k1NBytes[..20]) == 0xFFFFFFFF_FFFFFFFF_FFFFFFFF_FFFFFFFE_BAAEDCE6
  {
    var s := Secp256k1NBytes;
    NPrefix16();
    assert s[16] == 0xBA;
    BeValuePrefixStep(s, 16);
    assert BeValue(s[..17]) == 0xFF_FFFFFFFF_FFFFFFFF_FFFFFFFF_FFFFFEBA;
    assert s[17] == 0xAE;
    BeValuePrefixStep(s, 17);
    assert BeValue(s[..18]) == 0xFFFF_FFFFFFFF_FFFFFFFF_FFFFFFFF_FFFEBAAE;
    assert s[18] == 0xDC;
    BeValuePrefixStep(s, 18);
    assert BeValue(s[..19]) == 0xFFFFFF_FFFFFFFF_FFFFFFFF_FFFFFFFF_FEBAAEDC;
    assert s[19] == 0xE6;
    BeValuePrefixStep(s, 19);
  }

  lemma NPrefix24()
    ensures BeValue(Secp256k1NBytes[..24]) == 0xFFFFFFFF_FFFFFFFF_FFFFFFFF_FFFFFFFE_BAAEDCE6_AF48A03B
  {
    var s := Secp256k1NBytes;
    NPrefix20();
    assert s[20] == 0xAF;
    BeValuePrefixStep(s, 20);
    assert BeValue(s[..21]) == 0xFF_FFFFFFFF_FFFFFFFF_FFFFFFFF_FFFFFEBA_AEDCE6AF;
    assert s[21] == 0x48;
    BeValuePrefixStep(s, 21);
    assert BeValue(s[..22]) == 0xFFFF_FFFFFFFF_FFFFFFFF_FFFFFFFF_FFFEBAAE_DCE6AF48;
    assert s[22] == 0xA0;
    BeValuePrefixStep(s, 22);
    assert BeValue(s[..23]) == 0xFFFFFF_FFFFFFFF_FFFFFFFF_FFFFFFFF_FEBAAEDC_E6AF48A0;
    assert s[23] == 0x3B;
    BeValuePrefixStep(s, 23);
  }

  lemma NPrefix28()
    ensures BeValue(Secp256k1NBytes[..28]) == 0xFFFFFFFF_FFFFFFFF_FFFFFFFF_FFFFFFFE_BAAEDCE6_AF48A03B_BFD25E8C
  {
    var s := Secp256k1NBytes;
    NPrefix24();
    assert s[24] == 0xBF;
    BeValuePrefixStep(s, 24);
    assert BeValue(s[..25]) == 0xFF_FFFFFFFF_FFFFFFFF_FFFFFFFF_FFFFFEBA_AEDCE6AF_48A03BBF;
    assert s[25] == 0xD2;
    BeValuePrefixStep(s, 25);
    assert BeValue(s[..26]) == 0xFFFF_FFFFFFFF_FFFFFFFF_FFFFFFFF_FFFEBAAE_DCE6AF48_A03BBFD2;
    assert s[26] == 0x5E;
    BeValuePrefixStep(s, 26);
    assert BeValue(s[..27]) == 0xFFFFFF_FFFFFFFF_FFFFFFFF_FFFFFFFF_FEBAAEDC_E6AF48A0_3BBFD25E;
    assert s[27] == 0x8C;
    BeValuePrefixStep(s, 27);
  }

  lemma NPrefix32()
    ensures BeValue(Secp256k1NBytes[..32]) == 0xFFFFFFFF_FFFFFFFF_FFFFFFFF_FFFFFFFE_BAAEDCE6_AF48A03B_BFD25E8C_D0364141
  {
    var s := Secp256k1NBytes;
    NPrefix28();
    assert s[28] == 0xD0;
    BeValuePrefixStep(s, 28);
    assert BeValue(s[..29]) == 0xFF_FFFFFFFF_FFFFFFFF_FFFFFFFF_FFFFFEBA_AEDCE6AF_48A03BBF_D25E8CD0;
    assert s[29] == 0x36;
    BeValuePrefixStep(s, 29);
    assert BeValue(s[..30]) == 0xFFFF_FFFFFFFF_FFFFFFFF_FFFFFFFF_FFFEBAAE_DCE6AF48_A03BBFD2_5E8CD036;
    assert s[30] == 0x41;
    BeValuePrefixStep(s, 30);
    assert BeValue(s[..31]) == 0xFFFFFF_FFFFFFFF_FFFFFFFF_FFFFFFFF_FEBAAEDC_E6AF48A0_3BBFD25E_8CD03641;
    assert s[31] == 0x41;
    BeValuePrefixStep(s, 31);
  }

  /**
   * The range check read byte by byte: a 32-byte string is a valid key
   * exactly when it is not all zero and sorts lexicographically below n.
   */
  lemma ValidKeyBytewise(s: seq<byte>)
    ensures ValidKey(s) <==> |s| == 32 && (exists i :: 0 <= i < 32 && s[i] != 0) && LexLess(s, Secp256k1NBytes)
  {
    if |s| == 32 {
      Secp256k1NValue();
      BeValueZeroIff(s);
      LexLessIffValueLess(s, Secp256k1NBytes);
    }
  }

  /** FirstValid picks the earliest valid draw and skips only invalid ones. */
  lemma {:induction false} FirstValidSpec(draws: seq<Bytes32>, i: nat)
    requires i < |draws| && ValidKey(draws[i])
    requires forall k :: 0 <= k < i ==> !ValidKey(draws[k])
    ensures FirstValid(draws) == Some(draws[i])
  {
    if i > 0 {
      FirstValidSpec(draws[1..], i - 1);
    }
  }

  /** The draws run out without a key exactly when none of them is valid. */
  lemma {:induction false} FirstValidNone(draws: seq<Bytes32>)
    ensures FirstValid(draws).None? <==> forall i :: 0 <= i < |draws| ==> !ValidKey(draws[i])
  {
    if draws != [] {
      FirstValidNone(draws[1..]);
      assert forall i :: 1 <= i < |draws| ==> draws[i] == draws[1..][i - 1];
    }
  }

  /** A key the sampler returns is one of the draws, and it passes the range check. */
  lemma {:induction false} FirstValidIsValidDraw(draws: seq<Bytes32>)
    ensures FirstValid(draws).Some? ==> FirstValid(draws).value in draws && ValidKey(FirstValid(draws).value)
  {
    if draws != [] && !ValidKey(draws[0]) {
      FirstValidIsValidDraw(draws[1..]);
    }
  }

  /** Only "TRC20" up to the case of its letters compares equal to "TRC20" ignoring case. */
  lemma TronSelector(c: string)
    ensures EqualsIgnoreCase(c, "TRC20") <==> c in TronSpellings
  {
    if EqualsIgnoreCase(c, "TRC20") {
      assert ToUpperAscii(c[0]) == 'T' && ToUpperAscii(c[1]) == 'R' && ToUpperAscii(c[2]) == 'C';
      assert ToUpperAscii(c[3]) == '2' && ToUpperAscii(c[4]) == '0';
      assert c == [c[0], c[1], c[2], c[3], c[4]];
    }
  }

  /**
   * A Tron address decodes to 25 bytes: 0x41, the last 20 bytes of the
   * Keccak-256 digest of the public key, and a checksum of the first 21.
   */
  lemma TronAddressStructure(o: Oracles, priv: Bytes32)
    ensures var b := Base58.Decode(TronAddress(o, priv));
      b.Some? && |b.value| == 25 && b.value[0] == TronVersion
      && b.value[1..21] == o.keccak256(o.publicKey(priv))[12..]
      && b.value[21..] == DoubleSha256(o.sha256, b.value[..21])[..4]
  {
    var payload := TronPayload(o.keccak256(o.publicKey(priv)));
    var buf := CheckBuffer(o.sha256, payload);
    Base58.DecodeEncoding(buf);
    assert buf[..21] == payload;
  }
}
