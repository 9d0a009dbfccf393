# Receipt generator wallets: a Dafny model

ReceiptGenerator is a small desktop tool that generates receiving wallets. For a chain selector (the window offers "TRC20", "ERC20" and "Polygon") it:

- draws a random secp256k1 private key, retrying until the key lies in the curve's range;
- derives the address:
  - for EVM-like chains, the address the Ethereum library computes;
  - for Tron, a Base58Check string over `0x41` followed by the last 20 bytes of the Keccak-256 digest of the public key.

The wallets can be exported as CSV, one escaped line per wallet under a fixed header.

This project models that core in Dafny and proves what it promises:

- `bytes.dfy` (module `Bytes`): bytes, the unsigned big-endian value of a byte string (`new BigInteger(1, bytes)`), and `Buffer.BlockCopy`.
- `base58.dfy` (module `Base58`): the encoder as the source writes it.
  - The in-place long division `DivMod58` over a byte array.
  - The `Encode` loops that fill a `char[2n]` buffer from the back.
  - Both are proved against `Encoding`: leading zero bytes become '1', followed by the base-58 digits of the value over the Bitcoin alphabet of section 2 of draft-msporny-base58.
  - `Encoding` is proved lossless against an independent decoder, `Decode`.
  - The central invariant: the division never leaves more than one fresh leading zero byte. So `input[startAt] != 0` holds at the head of every pass, and the output has no surplus '1'.
- `wallet.dfy` (module `WalletGenerator`):
  - the range check of SEC 1, section 3.2.1, with n from SEC 2, section 2.4.1;
  - the rejection-sampling loop;
  - the Tron payload and the Base58Check framing;
  - the chain dispatch and the two generators.
- `csv.dfy` (module `Csv`):
  - `EscapeCsv` (RFC 4180, section 2, rules 6 and 7), the header line and the three-field data line;
  - an RFC 4180 line reader, proved to read every written line back into its three cells.
- `wrappers.dfy` (module `Wrappers`): `Option`, which models a C# reference that may be null.

Keccak-256, SHA-256, the elliptic-curve key object (public key, hex text, EVM address) and the random-number generator are not implemented:

- The hashes and the key functions arrive as the fields of an `Oracles` value. The two hashes return 32 bytes and the public key 64 bytes; the hex text of the key and the EVM address are unconstrained strings.
- The generator's output is a finite sequence of 32-byte draws.

## Model

| member | source | states |
|---|---|---|
| Bytes.BlockCopy | ReceiptGenerator/Crypto/WalletGenerator.cs:120-121 | the `count` bytes from `srcOffset` land at `dstOffset`; every other byte of the destination is unchanged |
| Bytes.BeValue | ReceiptGenerator/Crypto/WalletGenerator.cs:50 | the unsigned big-endian value of a byte string, `new BigInteger(1, bytes)`, by Horner's rule; no contract of its own: what it satisfies is stated by `BeValueBound` and the lemmas below |
| Bytes.BeValueBound | ReceiptGenerator/Crypto/WalletGenerator.cs:50 | the value of n bytes is below 256^n |
| Bytes.LexLessIffValueLess | ReceiptGenerator/Crypto/WalletGenerator.cs:50-51 | for equal lengths, the byte-wise lexicographic order is the order of the big-endian values (`BigInteger.CompareTo`) |
| Bytes.BeValueZeroIff | ReceiptGenerator/Crypto/WalletGenerator.cs:50-51 | the value is zero exactly when every byte is zero |
| Bytes.MinimalBytesOfValue | ReceiptGenerator/Crypto/WalletGenerator.cs:50 | the big-endian reading is injective on strings without a leading zero byte |
| Base58.DivMod58 | ReceiptGenerator/Crypto/WalletGenerator.cs:142-153 | value of input[startAt..] before = 58 × value after + remainder; 0 ≤ remainder < 58; bytes before startAt unchanged; every stored quotient byte is in 0..255 (array of `byte`) |
| Base58.CarryStep | ReceiptGenerator/Crypto/WalletGenerator.cs:147-150 | each step's quotient `temp / 58` fits a byte and the remainder stays below 58, and the carried value is preserved |
| Base58.Encode | ReceiptGenerator/Crypto/WalletGenerator.cs:113-140 | "" for null (and for empty input, since `Encoding([]) == ""`); otherwise exactly `Encoding(data)`; no `modifies` clause, so the caller's array is untouched |
| Base58.WriteDigits | ReceiptGenerator/Crypto/WalletGenerator.cs:124-132 | the division loop leaves in temp[j..] the symbols of the base-58 digits of the value of input[startAt..], most significant first; temp before j and input before startAt are unchanged |
| Base58.PutDigit | ReceiptGenerator/Crypto/WalletGenerator.cs:131 | `temp[--j] = Alphabet[mod]` prepends the symbol of `mod` to the rendered digits; the cells before it are unchanged |
| Base58.WriteOnes | ReceiptGenerator/Crypto/WalletGenerator.cs:134-137 | the second loop puts exactly `zeros` '1' symbols in front of temp[j..]; the cells before them are unchanged |
| Base58.DivisionStep | ReceiptGenerator/Crypto/WalletGenerator.cs:127-131 | one pass emits the last digit of the remaining value; after skipping at most one zero byte, the quotient again starts with a nonzero byte or is used up |
| Base58.QuotientLosesAtMostOneByte | ReceiptGenerator/Crypto/WalletGenerator.cs:130 | dividing a value whose first byte is nonzero by 58 leaves at most one leading zero byte, so the single `startAt++` suffices |
| Base58.EncodingFits | ReceiptGenerator/Crypto/WalletGenerator.cs:123-124 | the '1's plus the digits fit in `2 × data.Length` characters, so `j` never drops below 0 |
| Base58.DigitsCanonical | ReceiptGenerator/Crypto/WalletGenerator.cs:126-132 | the emitted digits denote the value, and the first one is never digit zero ('1') |
| Base58.LeadingOnesCountZeros | ReceiptGenerator/Crypto/WalletGenerator.cs:117-118 | the number of leading '1' symbols of the text equals the number of leading zero bytes |
| Base58.AlphabetDigits | ReceiptGenerator/Crypto/WalletGenerator.cs:111 | the alphabet has 58 symbols and symbol d reads back as digit d |
| Base58.ParseRender | ReceiptGenerator/Crypto/WalletGenerator.cs:111 | reading the rendered symbols back gives the digits |
| Base58.DecodeEncoding | ReceiptGenerator/Crypto/WalletGenerator.cs:113-140 | decoding the text returns the original bytes, leading zero bytes included |
| WalletGenerator.Secp256k1NValue | ReceiptGenerator/Crypto/WalletGenerator.cs:14 | the 32-byte form of n has the value n |
| WalletGenerator.IsValidSecp256k1PrivateKey | ReceiptGenerator/Crypto/WalletGenerator.cs:47-52 | true exactly when the array is non-null, has length 32 and its value d has 1 ≤ d < n; equivalently when some byte is nonzero and the bytes sort below n |
| WalletGenerator.ValidKeyBytewise | ReceiptGenerator/Crypto/WalletGenerator.cs:49-51 | the value range check and the byte-wise check agree on every input |
| WalletGenerator.CreateEthKey | ReceiptGenerator/Crypto/WalletGenerator.cs:34-45 | returns the first draw that passes the range check, and what it returns passes it |
| WalletGenerator.FirstValidSpec | ReceiptGenerator/Crypto/WalletGenerator.cs:39-42 | if draw i is valid and all earlier ones are not, draw i is the key |
| WalletGenerator.FirstValidNone | ReceiptGenerator/Crypto/WalletGenerator.cs:39-42 | no key results exactly when no draw is valid |
| WalletGenerator.FirstValidIsValidDraw | ReceiptGenerator/Crypto/WalletGenerator.cs:39-42 | a key that results is one of the draws and is valid; all-zero or ≥ n draws are never returned |
| WalletGenerator.TronPayload | ReceiptGenerator/Crypto/WalletGenerator.cs:74-80 | the payload of a digest has 21 bytes: byte 0 is 0x41 and byte i (1 ≤ i < 21) is digest byte i + 11 |
| WalletGenerator.DoubleSha256 | ReceiptGenerator/Crypto/WalletGenerator.cs:100-107 | SHA-256 applied to the SHA-256 of the data; no contract of its own: its first 4 bytes are the checksum stated by `CheckBuffer` and `Base58CheckEncode` |
| WalletGenerator.CheckBuffer | ReceiptGenerator/Crypto/WalletGenerator.cs:93-96 | the buffer is payload.Length + 4 bytes: the payload, then bytes 0..3 of the double SHA-256 of the payload |
| WalletGenerator.BuildTronPayload | ReceiptGenerator/Crypto/WalletGenerator.cs:74-80 | a fresh 21-byte array: byte 0 is 0x41, bytes 1..20 are digest bytes 12..31 |
| WalletGenerator.Base58CheckEncode | ReceiptGenerator/Crypto/WalletGenerator.cs:91-98 | the text is the Base58 encoding of payload + the first 4 bytes of SHA-256(SHA-256(payload)), and it decodes back to exactly that buffer |
| WalletGenerator.TronAddressStructure | ReceiptGenerator/Crypto/WalletGenerator.cs:67-107 | a Tron address decodes to 25 bytes: 0x41, digest bytes 12..31, then the double-SHA-256 checksum of the first 21 |
| WalletGenerator.GenerateEthLike | ReceiptGenerator/Crypto/WalletGenerator.cs:54-65 | the wallet of the first valid draw: its hex text and its EVM address |
| WalletGenerator.GenerateTron | ReceiptGenerator/Crypto/WalletGenerator.cs:67-89 | the wallet of the first valid draw: its hex text and its Tron address |
| WalletGenerator.ChainOf | ReceiptGenerator/Crypto/WalletGenerator.cs:24-30 | null or white-space selects EVM; Tron is selected exactly when the selector is "TRC20" in some letter case |
| WalletGenerator.TronSelector | ReceiptGenerator/Crypto/WalletGenerator.cs:27 | ordinal case-insensitive equality with "TRC20" holds exactly for its eight letter-case spellings |
| WalletGenerator.Generate | ReceiptGenerator/Crypto/WalletGenerator.cs:22-31 | total on every selector: the wallet of the chain `ChainOf` picks and the first valid draw; no wallet only when no draw is valid |
| Csv.CellText | ReceiptGenerator/Form1.cs:243-245 | `Convert.ToString` of a cell: a null cell is the empty string, a string cell is itself; no contract of its own: `RowRoundTrip` states that these texts are what a line reads back as |
| Csv.Header | ReceiptGenerator/Form1.cs:237 | the header is exactly the line "链类型,私钥(HEX),收款地址" |
| Csv.FormatRow | ReceiptGenerator/Form1.cs:243-247 | a data line is the three escaped cells joined by two commas; no contract of its own: `RowRoundTrip` states that it reads back as exactly the three cells |
| Csv.EscapeCsv | ReceiptGenerator/Form1.cs:252-262 | null gives ""; a field without comma, quote, CR or LF is returned unchanged; any other is enclosed in quotes |
| Csv.QuotedField | ReceiptGenerator/Form1.cs:255-260 | a quoted field is |input| + 2 + (number of quotes) long, and removing the outer quotes and collapsing `""` gives the input back |
| Csv.DoubleQuotesLength | ReceiptGenerator/Form1.cs:258 | `Replace("\"", "\"\"")` adds one character per quote |
| Csv.CollapseDoubleQuotes | ReceiptGenerator/Form1.cs:258 | collapsing doubled quotes undoes the doubling |
| Csv.FieldRoundTrip | ReceiptGenerator/Form1.cs:252-262 | an RFC 4180 reader reads every escaped field back as the original text, when a comma or the end of the line follows |
| Csv.RowRoundTrip | ReceiptGenerator/Form1.cs:243-247 | a data line reads back as exactly the three cell texts, so a comma inside a cell never splits it |
| Csv.HeaderColumns | ReceiptGenerator/Form1.cs:237 | the header line reads as the three column names: chain type, private key (HEX), receiving address |

## Left out

- User interface: the window layout, event handlers, clipboard, message boxes and the file dialog are not part of this model.
- File output: the file stream, the UTF-8 byte-order mark, `WriteLine` line endings, and the `foreach` over grid rows with its `IsNewRow` skip are I/O and are left out. The model covers only the text of the header and of one data line (`Csv.Header`, `Csv.FormatRow`).
- Cryptography:
  - Keccak-256, SHA-256 and the elliptic-curve key (public key, `GetPrivateKey` hex text, `GetPublicAddress`) are `Oracles` fields, not implementations.
  - The curve order n is the SEC 2 constant, not a library lookup.
  - The disposal of the `SHA256` and generator objects (`using`) is not modelled.
- WalletGenerator.CreateEthKey: the generator is a finite sequence of draws, and the method returns None when the draws run out. The source loops until a draw passes, which ends only with probability 1.
  - So `Generate`, `GenerateTron` and `GenerateEthLike` return `Option<Wallet>`. Their None case exists only because the draws are finite.
  - The model states what holds on exit, not termination.
- WalletGenerator.ChainOf: `StringComparison.OrdinalIgnoreCase` is modelled by upper-casing ASCII letters only. No other character upper-cases to 'T', 'R' or 'C', so the comparison with "TRC20" is exact. `char.IsWhiteSpace` is modelled by the .NET list of white-space characters.
- Base58.Encode:
  - C# `int` overflow of `input.Length * 2` (inputs over 2^30 bytes) is not modelled; integers are unbounded.
  - The two loops of the source are the helper methods `WriteDigits` and `WriteOnes`, and the store `temp[--j]` is `PutDigit`. Their order and their effect on the buffers are as in the source.
- Base58.DivMod58: the `& 0xFF` mask on an unsigned byte is the identity and is not written out.
- Csv.EscapeCsv: its own contract states the enclosing quotes only. The exact quoted content is stated by `Csv.QuotedField` (length and collapse back to the input) and `Csv.FieldRoundTrip`.
- Csv.CellText: `Convert.ToString` of a cell value is modelled for string or null cells only. A null cell gives "". Other cell types are not part of this model.
