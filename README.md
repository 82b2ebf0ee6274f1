# BIP39 mnemonic encoder of the edge `generate` endpoint

The endpoint's `generateBIP39(entropy)` turns entropy bytes into a BIP39
mnemonic phrase in four steps:

1. It writes each byte as eight binary digits, most significant first, and
   concatenates them into `bin`.
2. It takes the first four digits of the first SHA-256 digest byte as the
   checksum and appends them, giving `finalBin`.
3. It reads twelve 11-digit windows at bit offsets 0, 11, …, 121 with
   `parseInt(_, 2)` and looks each index up in a wordlist. `"abandon"` is
   used whenever the entry is missing or empty.
4. It joins the twelve words with single spaces.

The project has four modules:

- `Wrappers` holds `Option`, where `None` stands for JavaScript's `NaN`.
- `Binary` holds binary numerals: `Bits(n, w)` is the `w`-digit numeral of
  `n`, and `Value(s)` is the number a numeral denotes, with the arithmetic
  facts that link the two.
- `JsText` holds the JavaScript built-ins the encoder calls: `toString(2)`,
  `padStart`, `slice` (with its clamping), `parseInt(_, 2)`, `join`, and
  `split` as the partner of `join`.
- `Generate` holds the encoder.

`Generate.GenerateBIP39` follows the source statement by statement:

- `Generate.EntropyToBinary` is the `for…of` loop that builds `bin` with
  `+=`.
- `Generate.MapWords` is the counted loop that `push`es one word per
  11-digit window.

Each method is proved against a specification function: `EntropyBits`,
`Bitstream`, `Window`, `Lookup` and `Words`. Lemmas connect those functions
to an independent arithmetic reference. In it, the stream is the number
`entropy * 16 + hash[0] / 16`, and word index `k` is
`(that number / 2^(11·(11-k))) mod 2048`.

The method accepts entropy of any length, as the JavaScript function does.
The handler always passes 16 bytes, so the BIP39 facts are stated for
16-byte entropy.

The code departs from BIP-0039 in two places, and the model follows the
code:

- BIP-0039 uses a 2048-word list, so every 11-bit index is in range and no
  fallback word is needed. The code's list literal has three entries, and
  `wordlist[index] || "abandon"` substitutes `"abandon"` both for an index
  past the end and for an empty entry. The wordlist is a parameter, and
  `SourceWordlist` is the three-entry literal.
- BIP-0039 allows 128 to 256 bits of entropy, but the code's loop reads a
  fixed 132 digits. Shorter entropy gives a stream of 8·n + 4 digits. At
  most one window is partial. It is the one that starts before the end
  and runs past it: `slice` clamps it, and `parseInt` reads its few digits
  as a small index. For 15 bytes this is the loop's last window, digits
  121..123. No window is partial when 8·n + 4 is a multiple of 11, as for
  5 bytes (44 digits, four full windows). Any window that starts at or
  past the end is empty, parses to `NaN` and maps to `"abandon"`; for
  15 bytes there is none. With 17 or more
  bytes, the 132 digits read are all entropy digits. The checksum and the
  entropy past bit 132 then change no word.

## Model

| member | source | states |
|---|---|---|
| Generate.GenerateBIP39 | api/generate.js:31-52 | The phrase is the twelve looked-up words joined by single spaces. For 16 bytes of entropy, word k is the lookup of the reference index k computed from the entropy and the checksum. |
| Generate.EntropyToBinary | api/generate.js:37-38 | The byte loop builds exactly the concatenation of each byte's 8-digit MSB-first numeral. |
| Generate.MapWords | api/generate.js:46-50 | On a binary stream the word loop runs twelve rounds (i = 0, 11, …, 121). Round k pushes the lookup of the window at bit 11k. |
| Generate.EntropyBits | api/generate.js:38 | `bin` has 8 digits per entropy byte (128 for the handler's 16 bytes). |
| Generate.Bitstream | api/generate.js:45 | `finalBin` is `bin` followed by four checksum digits: 8·n + 4 digits, 132 for 16 bytes. |
| Generate.ChecksumIsHighNibble | api/generate.js:42-43 | The first four digits of the padded first digest byte are the 4-digit numeral of `hash[0] / 16`. |
| Generate.ParseWindow | api/generate.js:48 | `parseInt` of the 11-character slice at i is the value of the digits there. It is `NaN` when i is at or past the end of the stream. |
| Generate.WindowBound | api/generate.js:48 | Every parsed index, full window or not, lies in [0, 2047]. |
| Generate.LookupNeverEmpty | api/generate.js:49 | A word is never empty or undefined. It is a wordlist entry or `"abandon"`, and any word other than `"abandon"` is the entry at the parsed index. |
| Generate.WordsUpTo | api/generate.js:46-50 | After n rounds the `words` array holds n words. |
| Generate.WordsUpToAt | api/generate.js:49 | Round k of the loop contributes word k, which later rounds leave unchanged. |
| Generate.WordsFromList | api/generate.js:49 | Every word of the phrase is a non-empty wordlist entry or the fallback. |
| Generate.EntropyBitsBinary | api/generate.js:38 | `bin` contains only '0' and '1'. |
| Generate.BitstreamBinary | api/generate.js:45 | `finalBin` contains only '0' and '1'. |
| Generate.EntropyBitsValue | api/generate.js:38 | `bin` denotes the entropy read as one big-endian number. |
| Generate.EntropyBitsAt | api/generate.js:38 | The aligned 8-digit slice j of `bin` is byte j's numeral and parses back to byte j. |
| Generate.BitstreamDecodes | api/generate.js:38-45 | `finalBin` denotes entropy·16 + checksum. Its aligned bytes read back as the entropy bytes, and its last four digits read back as `hash[0] / 16`. |
| Generate.Index | api/generate.js:47-48 | The reference word index, bits 11k to 11k+10 of the stream counted from the top, is below 2048. |
| Generate.IndexBits | api/generate.js:47-48 | Indices written back as 11-digit numerals take 11 digits each. |
| Generate.WindowIsIndex | api/generate.js:47-48 | For 16 bytes the stream has 132 = 12·11 digits. Every window the loop reads is a full 11 digits, with nothing left over, and parses to the reference index. |
| Generate.WordsOfFullEntropy | api/generate.js:46-50 | For 16 bytes, word k is the lookup of the reference index k. |
| Generate.IndicesRoundTrip | api/generate.js:38-48 | The twelve indices, written back as 11-digit MSB-first numerals and concatenated, reproduce `finalBin`. |
| Generate.IndexBitsOfWindows | api/generate.js:47-48 | Numerals matching consecutive 11-digit windows of a string concatenate back to that string. |
| Generate.AllZeroIndices | api/generate.js:38-48 | For all-zero entropy the first eleven indices are 0 and the twelfth is the checksum value. |
| Generate.AllZeroVector | api/generate.js:32-49 | Take all-zero entropy with checksum 3, as in the BIP39 test vector. The source's three-word literal gives twelve "abandon". A list whose entry 3 is "about" gives eleven "abandon" then "about". |
| Generate.ShortEntropyFallback | api/generate.js:47-49 | A window starting at or past the end of a short stream parses to `NaN`, and its word is `"abandon"`. |
| Generate.PhraseSplits | api/generate.js:51 | When no wordlist entry contains a space, splitting the phrase on " " gives back the twelve words in order. |
| Generate.PhraseTrimmed | api/generate.js:51 | When no entry starts or ends with a space, the phrase is non-empty and has no leading or trailing space. |
| JsText.PadStart | api/generate.js:38 | `padStart` gives the longer of the target width and the input, keeps the input as its suffix, and fills the front with the pad character. |
| JsText.Slice | api/generate.js:43 | `slice` is the substring when in range, is clamped at the end, and is empty past the end. |
| JsText.ToBinaryStringValue | api/generate.js:38 | `toString(2)` is a numeral for the number with no leading zero. |
| JsText.ToBinaryStringLength | api/generate.js:38 | `toString(2)` of a number below 2^w has at most w digits, so a byte needs at most 8. |
| JsText.PadStartBinary | api/generate.js:38 | `toString(2).padStart(w, '0')` of a number below 2^w is its w-digit MSB-first numeral. |
| JsText.PadStartZeros | api/generate.js:38 | Padding a numeral with '0' prefixes zeros and leaves a numeral. |
| JsText.ParseDigitsBinary | api/generate.js:48 | The `parseInt` digit loop over a numeral shifts the accumulator past it and adds the numeral's value. |
| JsText.ParseInt2Binary | api/generate.js:48 | `parseInt(s, 2)` on a numeral is its value, and `NaN` on the empty string. |
| JsText.JoinEnds | api/generate.js:51 | A join of non-empty words starts with the first word's first character and ends with the last word's last character. |
| JsText.SplitJoin | api/generate.js:51 | Joining on a one-character separator and splitting on it returns the words, provided none contains the separator. |
| Binary.ValueOfBits | api/generate.js:38 | The w-digit numeral of n reads back as n mod 2^w. |
| Binary.BitsOfValue | api/generate.js:48 | A string of binary digits is the numeral of its own value at its own width. |
| Binary.BitsPrefix | api/generate.js:43 | The first k digits of the w-digit numeral of n are the k-digit numeral of n / 2^(w-k). |
| Binary.SliceValue | api/generate.js:48 | The digits i..j of a numeral read as its value shifted right by the digits after j, modulo 2^(j-i). |

## Left out

- The HTTP `handler` (api/generate.js:8-28): it builds the JSON `Response`, sets status 200 or 500 and maps any exception to failure. This is transport I/O.
- The `config` export with `runtime: 'edge'` (api/generate.js:4-6): deployment configuration.
- `crypto.getRandomValues` (api/generate.js:12): an external random source. The entropy is a parameter of `Generate.GenerateBIP39`.
- SHA-256 and the `await` on `crypto.subtle.digest` (api/generate.js:40-41): a foreign hash, so only the first digest byte enters, as a parameter.
- The `bip39-light` import (api/generate.js:1): it is never called.
- The 2048-word English list (api/generate.js:32-33): the source holds a three-word placeholder, so the wordlist is an arbitrary parameter.
- `parseInt` skipping leading whitespace and accepting a sign: the slices it is given hold only '0' and '1'.
- BIP-0039 entropy lengths other than 128 bits: the loop bound of 132 digits is fixed. The model covers other lengths only as the code treats them. Short entropy gives at most one partial window (none when 8·n + 4 is a multiple of 11), and every window starting at or past the end of the stream is empty and falls back to "abandon". Long entropy has its checksum and its digits past 132 ignored.
- Generate.MapWords: requires that its stream contain only '0' and '1', which its one caller establishes. Its behaviour on other strings, where `parseInt` stops at the first non-digit, is not stated.
- Sequential asynchronous execution: the model is one synchronous computation, with `await` treated as returning its value.
