/**
 * The BIP39 mnemonic encoder `generateBIP39` of api/generate.js: entropy
 * bytes are written out as bits, four checksum bits taken from the first
 * SHA-256 digest byte are appended, the 132-bit stream is cut into twelve
 * 11-bit word indices, and each index is looked up in a wordlist, with
 * "abandon" standing in for a missing or empty entry.
 *
 * SHA-256 is not modelled: its first digest byte is a parameter.
 */
module Generate {
  import opened Wrappers
  import opened Binary
  import opened JsText

  /** Bytes of entropy the handler draws. */
  const EntropyBytes: nat := 16
  /** Bits of the stream the word loop reads (its hard-coded bound). */
  const StreamBits: nat := 132
  /** Bits per word index. */
  const WindowBits: nat := 11
  /** Rounds of the word loop: i = 0, 11, ..., 121. */
  const WordCount: nat := 12
  /** The word used when the wordlist has no non-empty entry for an index. */
  const Fallback: string := "abandon"
  /** The wordlist literal inside `generateBIP39`. */
  const SourceWordlist: seq<string> := ["abandon", "ability", "able"]

  // ---------------------------------------------------------------------
  // What each step of the encoder computes

  /** `bin` after the byte loop: each byte as 8 digits, most significant first. */
  function EntropyBits(e: seq<Byte>): (r: string)
    ensures |r| == 8 * |e|
  {
    if e == [] then "" else EntropyBits(e[..|e| - 1]) + Bits(e[|e| - 1], 8)
  }

  /** `finalBin`: the entropy bits followed by the four checksum bits. */
  function Bitstream(e: seq<Byte>, hashFirst: Byte): (r: string)
    ensures |r| == 8 * |e| + 4
  {
    EntropyBits(e) + Bits(hashFirst / 16, 4)
  }

  /**
   * The index read from the window of at most eleven digits starting at
   * `i`: `None` (`NaN`) when the window is empty, that is, past the end.
   */
  function Window(stream: string, i: nat): Option<nat> {
    if |stream| <= i then None else Some(Value(stream[i..Min(i + WindowBits, |stream|)]))
  }

  /** Every index read from a window, full or partial, lies in [0, 2047]. */
  lemma WindowBound(stream: string, i: nat)
    ensures Window(stream, i).Some? ==> Window(stream, i).value < 2048
  {
    if i < |stream| {
      var w := stream[i..Min(i + WindowBits, |stream|)];
      ValueBound(w);
      Pow2Monotone(|w|, WindowBits);
      Pow2Eleven();
    }
  }

  /** `wordlist[index] || "abandon"`. */
  function Lookup(wordlist: seq<string>, index: Option<nat>): (w: string)
  {
    if index.Some? && index.value < |wordlist| && wordlist[index.value] != ""
    then wordlist[index.value]
    else Fallback
  }

  /** A looked-up word is a non-empty wordlist entry or the fallback: never `undefined` or empty. */
  lemma LookupNeverEmpty(wordlist: seq<string>, index: Option<nat>)
    ensures Lookup(wordlist, index) != ""
    ensures Lookup(wordlist, index) in wordlist || Lookup(wordlist, index) == Fallback
    ensures Lookup(wordlist, index) != Fallback ==>
      index.Some? && index.value < |wordlist| && Lookup(wordlist, index) == wordlist[index.value]
  {
  }

  /** Word `k`: the lookup of the window at bit `11k`. */
  function WordAt(wordlist: seq<string>, stream: string, k: nat): string {
    Lookup(wordlist, Window(stream, 11 * k))
  }

  /** The `words` array after `n` rounds of the word loop over `stream`. */
  function WordsUpTo(wordlist: seq<string>, stream: string, n: nat): (ws: seq<string>)
    ensures |ws| == n
  {
    if n == 0 then [] else WordsUpTo(wordlist, stream, n - 1) + [WordAt(wordlist, stream, n - 1)]
  }

  /** Round `k` of the word loop contributes word `k`. */
  lemma {:induction false} WordsUpToAt(wordlist: seq<string>, stream: string, n: nat, k: nat)
    requires k < n
    ensures WordsUpTo(wordlist, stream, n)[k] == WordAt(wordlist, stream, k)
  {
    if k < n - 1 {
      WordsUpToAt(wordlist, stream, n - 1, k);
    }
  }

  /** The `words` array after the word loop. */
  function Words(e: seq<Byte>, hashFirst: Byte, wordlist: seq<string>): (ws: seq<string>)
    ensures |ws| == WordCount
  {
    WordsUpTo(wordlist, Bitstream(e, hashFirst), WordCount)
  }

  // ---------------------------------------------------------------------
  // The JavaScript expressions of the source compute those steps

  /** `hashBin.slice(0, 4)` with `hashBin = hashArray[0].toString(2).padStart(8, '0')`: the high nibble. */
  lemma ChecksumIsHighNibble(hashFirst: Byte)
    ensures Slice(PadStart(ToBinaryString(hashFirst), 8, '0'), 0, 4) == Bits(hashFirst / 16, 4)
  {
    Pow2Byte();
    PadStartBinary(hashFirst, 8);
    BitsPrefix(hashFirst, 8, 4);
    Pow2Nibble();
  }

  /** `parseInt(stream.slice(i, i + 11), 2)` reads the window at `i`, `NaN` past the end. */
  lemma ParseWindow(stream: string, i: nat)
    requires IsBinary(stream)
    ensures ParseInt2(Slice(stream, i, i + WindowBits)) == Window(stream, i)
  {
    var w := Slice(stream, i, i + WindowBits);
    assert w == if |stream| <= i then [] else stream[i..Min(i + WindowBits, |stream|)];
    assert IsBinary(w);
    ParseInt2Binary(w);
  }

  lemma {:induction false} EntropyBitsBinary(e: seq<Byte>)
    ensures IsBinary(EntropyBits(e))
  {
    if e != [] {
      EntropyBitsBinary(e[..|e| - 1]);
      BitsBinary(e[|e| - 1], 8);
    }
  }

  /** One more round of the byte loop appends that byte's 8 digits. */
  lemma EntropyBitsSnoc(e: seq<Byte>, b: Byte)
    ensures EntropyBits(e + [b]) == EntropyBits(e) + Bits(b, 8)
  {
    assert (e + [b])[..|e|] == e;
  }

  /** The stream holds only the digits '0' and '1'. */
  lemma BitstreamBinary(e: seq<Byte>, hashFirst: Byte)
    ensures IsBinary(Bitstream(e, hashFirst))
  {
    EntropyBitsBinary(e);
    BitsBinary(hashFirst / 16, 4);
  }

  /** The byte loop: `for (let b of entropy) bin += b.toString(2).padStart(8, '0')`. */
  method EntropyToBinary(entropy: seq<Byte>) returns (bin: string)
    ensures bin == EntropyBits(entropy)
  {
    bin := "";
    for j := 0 to |entropy|
      invariant bin == EntropyBits(entropy[..j])
    {
      EntropyBitsSnoc(entropy[..j], entropy[j]);
      assert entropy[..j] + [entropy[j]] == entropy[..j + 1];
      Pow2Byte();
      PadStartBinary(entropy[j], 8);
      bin := bin + PadStart(ToBinaryString(entropy[j]), 8, '0');
    }
    assert entropy[..|entropy|] == entropy;
  }

  /**
   * The word loop: for `i = 0, 11, ..., 121` push
   * `wordlist[parseInt(finalBin.slice(i, i + 11), 2)] || "abandon"`.
   * Its caller passes the stream it built, which holds only binary digits.
   */
  method MapWords(finalBin: string, wordlist: seq<string>) returns (words: seq<string>)
    requires IsBinary(finalBin)
    ensures words == WordsUpTo(wordlist, finalBin, WordCount)
  {
    words := [];
    var i := 0;
    while i < StreamBits
      invariant i == 11 * |words| && |words| <= WordCount
      invariant words == WordsUpTo(wordlist, finalBin, |words|)
    {
      ParseWindow(finalBin, i);
      var index := ParseInt2(Slice(finalBin, i, i + WindowBits));
      words := words + [Lookup(wordlist, index)];
      i := i + WindowBits;
    }
  }

  /**
   * `generateBIP39(entropy)` with `hashFirst` the first byte of the SHA-256
   * digest of `entropy` and `wordlist` the list it looks words up in.
   */
  method GenerateBIP39(entropy: seq<Byte>, hashFirst: Byte, wordlist: seq<string>)
    returns (phrase: string)
    ensures phrase == Join(Words(entropy, hashFirst, wordlist), " ")
    ensures |entropy| == EntropyBytes ==>
      phrase == Join(seq(WordCount, k requires 0 <= k < WordCount =>
                           Lookup(wordlist, Some(Index(entropy, hashFirst, k)))), " ")
  {
    var bin := EntropyToBinary(entropy);
    var hashBin := PadStart(ToBinaryString(hashFirst), 8, '0');
    var checksum := Slice(hashBin, 0, 4);
    ChecksumIsHighNibble(hashFirst);
    var finalBin := bin + checksum;
    assert finalBin == Bitstream(entropy, hashFirst);
    BitstreamBinary(entropy, hashFirst);
    var words := MapWords(finalBin, wordlist);
    phrase := Join(words, " ");
    if |entropy| == EntropyBytes {
      WordsOfFullEntropy(entropy, hashFirst, wordlist);
    }
  }

  // ---------------------------------------------------------------------
  // Reference definition: the word indices as arithmetic on the entropy

  /** The entropy read as one big-endian number. */
  function BytesValue(e: seq<Byte>): nat {
    if e == [] then 0 else BytesValue(e[..|e| - 1]) * 256 + e[|e| - 1]
  }

  /** The number the stream denotes: the entropy shifted left by four, plus the checksum. */
  function StreamValue(e: seq<Byte>, hashFirst: Byte): nat {
    BytesValue(e) * 16 + hashFirst / 16
  }

  /** Word index `k` of a 16-byte entropy: bits `11k .. 11k + 10` of the stream, counted from the top. */
  function Index(e: seq<Byte>, hashFirst: Byte, k: nat): (r: nat)
    requires k < WordCount
    ensures r < 2048
  {
    Pow2Eleven();
    (StreamValue(e, hashFirst) / Pow2(11 * (WordCount - 1 - k))) % Pow2(WindowBits)
  }

  /** The twelve indices of a 16-byte entropy. */
  function Indices(e: seq<Byte>, hashFirst: Byte): (idx: seq<nat>)
    ensures |idx| == WordCount
  {
    seq(WordCount, k requires 0 <= k < WordCount => Index(e, hashFirst, k))
  }

  /** Indices written back as 11-bit numerals and concatenated. */
  function IndexBits(idx: seq<nat>): (s: string)
    ensures |s| == 11 * |idx|
  {
    if idx == [] then "" else IndexBits(idx[..|idx| - 1]) + Bits(idx[|idx| - 1], WindowBits)
  }

  // ---------------------------------------------------------------------
  // Properties

  /** The entropy bits denote the entropy read as a big-endian number. */
  lemma {:induction false} EntropyBitsValue(e: seq<Byte>)
    ensures Value(EntropyBits(e)) == BytesValue(e)
  {
    if e != [] {
      var e', b := e[..|e| - 1], e[|e| - 1];
      EntropyBitsValue(e');
      ValueAppend(EntropyBits(e'), Bits(b, 8));
      ByteBitsValue(b);
      Pow2Byte();
    }
  }

  /** Each aligned 8-digit slice of the entropy bits is that byte's numeral and reads back as the byte. */
  lemma {:induction false} EntropyBitsAt(e: seq<Byte>, j: nat)
    requires j < |e|
    ensures EntropyBits(e)[8 * j..8 * j + 8] == Bits(e[j], 8)
    ensures Value(EntropyBits(e)[8 * j..8 * j + 8]) == e[j]
  {
    var e' := e[..|e| - 1];
    var front, last := EntropyBits(e'), Bits(e[|e| - 1], 8);
    assert EntropyBits(e) == front + last;
    if j < |e| - 1 {
      EntropyBitsAt(e', j);
      assert (front + last)[8 * j..8 * j + 8] == front[8 * j..8 * j + 8];
    } else {
      assert (front + last)[8 * j..8 * j + 8] == last;
    }
    ByteBitsValue(e[j]);
  }

  /**
   * The stream decodes back: its aligned bytes are the entropy bytes, its
   * last four digits are the checksum, and as a whole it denotes `StreamValue`.
   */
  lemma BitstreamDecodes(e: seq<Byte>, hashFirst: Byte)
    ensures Value(Bitstream(e, hashFirst)) == StreamValue(e, hashFirst)
    ensures forall j :: 0 <= j < |e| ==>
      Value(Bitstream(e, hashFirst)[8 * j..8 * j + 8]) == e[j]
    ensures Bitstream(e, hashFirst)[8 * |e|..] == Bits(hashFirst / 16, 4)
    ensures Value(Bitstream(e, hashFirst)[8 * |e|..]) == hashFirst / 16
  {
    var bin, sum := EntropyBits(e), Bits(hashFirst / 16, 4);
    var s := Bitstream(e, hashFirst);
    assert s == bin + sum;
    EntropyBitsValue(e);
    ValueAppend(bin, sum);
    Pow2Nibble();
    ValueOfSmallBits(hashFirst / 16, 4);
    forall j | 0 <= j < |e|
      ensures Value(s[8 * j..8 * j + 8]) == e[j]
    {
      EntropyBitsAt(e, j);
      assert s[8 * j..8 * j + 8] == bin[8 * j..8 * j + 8];
    }
    assert s[8 * |e|..] == sum;
  }

  /**
   * With 16 bytes of entropy every window the loop reads is a full 11 digits
   * (the stream is exactly 132 = 12 * 11 digits long), and the index read
   * from it is the reference `Index`.
   */
  lemma WindowIsIndex(e: seq<Byte>, hashFirst: Byte, k: nat)
    requires |e| == EntropyBytes && k < WordCount
    ensures |Bitstream(e, hashFirst)| == StreamBits == WindowBits * WordCount
    ensures Window(Bitstream(e, hashFirst), 11 * k) ==
      Some(Value(Bitstream(e, hashFirst)[11 * k..11 * k + WindowBits]))
    ensures Window(Bitstream(e, hashFirst), 11 * k) == Some(Index(e, hashFirst, k))
  {
    var s := Bitstream(e, hashFirst);
    var i := 11 * k;
    BitstreamDecodes(e, hashFirst);
    SliceValue(s, i, i + WindowBits);
    assert |s| - (i + WindowBits) == 11 * (WordCount - 1 - k);
  }

  /** With 16 bytes of entropy, word `k` is the lookup of the reference `Index(k)`. */
  lemma WordsOfFullEntropy(e: seq<Byte>, hashFirst: Byte, wordlist: seq<string>)
    requires |e| == EntropyBytes
    ensures Words(e, hashFirst, wordlist) ==
      seq(WordCount, k requires 0 <= k < WordCount => Lookup(wordlist, Some(Index(e, hashFirst, k))))
  {
    forall k | 0 <= k < WordCount
      ensures Words(e, hashFirst, wordlist)[k] == Lookup(wordlist, Some(Index(e, hashFirst, k)))
    {
      WindowIsIndex(e, hashFirst, k);
      WordsUpToAt(wordlist, Bitstream(e, hashFirst), WordCount, k);
    }
  }

  /** Every word of the phrase is a non-empty wordlist entry or the fallback. */
  lemma WordsFromList(e: seq<Byte>, hashFirst: Byte, wordlist: seq<string>, k: nat)
    requires k < WordCount
    ensures Words(e, hashFirst, wordlist)[k] != ""
    ensures Words(e, hashFirst, wordlist)[k] in wordlist || Words(e, hashFirst, wordlist)[k] == Fallback
  {
    WordsUpToAt(wordlist, Bitstream(e, hashFirst), WordCount, k);
    LookupNeverEmpty(wordlist, Window(Bitstream(e, hashFirst), 11 * k));
  }

  /** Building `IndexBits` from windows that match a string rebuilds the string. */
  lemma {:induction false} IndexBitsOfWindows(idx: seq<nat>, s: string)
    requires |s| == 11 * |idx|
    requires forall k :: 0 <= k < |idx| ==> Bits(idx[k], WindowBits) == s[11 * k..11 * k + WindowBits]
    ensures IndexBits(idx) == s
  {
    if idx != [] {
      var n := |idx| - 1;
      var front, last := s[..11 * n], s[11 * n..];
      forall k | 0 <= k < n
        ensures Bits(idx[..n][k], WindowBits) == front[11 * k..11 * k + WindowBits]
      {
        assert front[11 * k..11 * k + WindowBits] == s[11 * k..11 * k + WindowBits];
      }
      IndexBitsOfWindows(idx[..n], front);
      assert IndexBits(idx) == IndexBits(idx[..n]) + Bits(idx[n], WindowBits);
      assert Bits(idx[n], WindowBits) == last;
      assert s == front + last;
    }
  }

  /**
   * Round trip: the twelve indices of a 16-byte entropy, written back as
   * 11-bit numerals, reproduce the 132-bit stream.
   */
  lemma IndicesRoundTrip(e: seq<Byte>, hashFirst: Byte)
    requires |e| == EntropyBytes
    ensures IndexBits(Indices(e, hashFirst)) == Bitstream(e, hashFirst)
  {
    var s := Bitstream(e, hashFirst);
    var idx := Indices(e, hashFirst);
    BitstreamBinary(e, hashFirst);
    forall k | 0 <= k < WordCount
      ensures Bits(idx[k], WindowBits) == s[11 * k..11 * k + WindowBits]
    {
      WindowIsIndex(e, hashFirst, k);
      var w := s[11 * k..11 * k + WindowBits];
      assert idx[k] == Value(w);
      assert IsBinary(w);
      BitsOfValue(w);
    }
    IndexBitsOfWindows(idx, s);
  }

  lemma {:induction false} BytesValueZero(n: nat)
    ensures BytesValue(seq(n, _ => 0)) == 0
  {
    if n > 0 {
      assert seq(n, _ => 0)[..n - 1] == seq(n - 1, _ => 0);
      BytesValueZero(n - 1);
    }
  }

  /** For all-zero entropy the first eleven indices are 0 and the last is the checksum. */
  lemma AllZeroIndices(hashFirst: Byte, k: nat)
    requires k < WordCount
    ensures Index(seq(EntropyBytes, _ => 0), hashFirst, k) == if k < WordCount - 1 then 0 else hashFirst / 16
  {
    var z := seq(EntropyBytes, _ => 0);
    var c := hashFirst / 16;
    BytesValueZero(EntropyBytes);
    assert StreamValue(z, hashFirst) == c;
    var m := 11 * (WordCount - 1 - k);
    Pow2Eleven();
    if k < WordCount - 1 {
      Pow2Monotone(WindowBits, m);
      DivModUnique(0, c, Pow2(m));
    } else {
      DivModUnique(c, 0, Pow2(0));
      DivModUnique(0, c, Pow2(WindowBits));
    }
  }

  /**
   * Entropy shorter than the loop expects: a window that starts at or past
   * the end of the stream is empty, parses to `NaN` and yields the fallback.
   */
  lemma ShortEntropyFallback(e: seq<Byte>, hashFirst: Byte, wordlist: seq<string>, k: nat)
    requires k < WordCount && 8 * |e| + 4 <= 11 * k
    ensures Window(Bitstream(e, hashFirst), 11 * k) == None
    ensures Words(e, hashFirst, wordlist)[k] == Fallback
  {
    WordsUpToAt(wordlist, Bitstream(e, hashFirst), WordCount, k);
  }

  /**
   * The phrase splits on single spaces back into the twelve words, none of
   * them empty, when no wordlist entry contains a space.
   */
  lemma PhraseSplits(e: seq<Byte>, hashFirst: Byte, wordlist: seq<string>)
    requires forall w :: w in wordlist ==> ' ' !in w
    ensures Split(Join(Words(e, hashFirst, wordlist), " "), ' ') == Words(e, hashFirst, wordlist)
  {
    var ws := Words(e, hashFirst, wordlist);
    forall k | 0 <= k < |ws|
      ensures ' ' !in ws[k]
    {
      WordsFromList(e, hashFirst, wordlist, k);
    }
    SplitJoin(ws, ' ');
  }

  /**
   * The phrase has no leading or trailing space when no wordlist entry
   * begins or ends with one.
   */
  lemma PhraseTrimmed(e: seq<Byte>, hashFirst: Byte, wordlist: seq<string>)
    requires forall w :: w in wordlist && w != "" ==> w[0] != ' ' && w[|w| - 1] != ' '
    ensures |Join(Words(e, hashFirst, wordlist), " ")| >= 1
    ensures Join(Words(e, hashFirst, wordlist), " ")[0] != ' '
    ensures Join(Words(e, hashFirst, wordlist), " ")[|Join(Words(e, hashFirst, wordlist), " ")| - 1] != ' '
  {
    var ws := Words(e, hashFirst, wordlist);
    forall k | 0 <= k < |ws|
      ensures ws[k] != "" && ws[k][0] != ' ' && ws[k][|ws[k]| - 1] != ' '
    {
      WordsFromList(e, hashFirst, wordlist, k);
    }
    JoinEnds(ws, " ");
  }

  /**
   * The all-zero entropy vector, whose checksum is 3 in the published BIP39
   * vectors. With the source's three-word literal index 3 is missing, so all
   * twelve words are "abandon"; with a list whose entry 3 is "about", as in
   * the BIP39 English list, the phrase ends in "about".
   */
  lemma AllZeroVector(hashFirst: Byte, wordlist: seq<string>)
    requires hashFirst / 16 == 3
    ensures Words(seq(EntropyBytes, _ => 0), hashFirst, SourceWordlist) == seq(WordCount, _ => "abandon")
    ensures |wordlist| >= 4 && wordlist[0] == "abandon" && wordlist[3] == "about" ==>
      Words(seq(EntropyBytes, _ => 0), hashFirst, wordlist) == seq(WordCount - 1, _ => "abandon") + ["about"]
  {
    var z := seq(EntropyBytes, _ => 0);
    WordsOfFullEntropy(z, hashFirst, SourceWordlist);
    WordsOfFullEntropy(z, hashFirst, wordlist);
    forall k | 0 <= k < WordCount
      ensures Index(z, hashFirst, k) == if k < WordCount - 1 then 0 else 3
    {
      AllZeroIndices(hashFirst, k);
    }
  }
}
