/**
 * The JavaScript built-ins the encoder relies on, restricted to the way it
 * calls them: `Number.prototype.toString(2)`, `String.prototype.padStart`
 * with a one-character pad, `String.prototype.slice` with non-negative
 * bounds, `parseInt(_, 2)`, `Array.prototype.join` and, as its partner,
 * `String.prototype.split` on one character.
 */
module JsText {
  import opened Wrappers
  import opened Binary

  function Min(a: nat, b: nat): nat {
    if a <= b then a else b
  }

  /** `n.toString(2)`: the shortest binary numeral for `n`, "0" for zero. */
  function ToBinaryString(n: nat): string {
    if n < 2 then [Digit(n)] else ToBinaryString(n / 2) + [Digit(n % 2)]
  }

  /** `n.toString(2)` is a numeral for `n` with no leading zero. */
  lemma {:induction false} ToBinaryStringValue(n: nat)
    ensures IsBinary(ToBinaryString(n)) && Value(ToBinaryString(n)) == n
    ensures |ToBinaryString(n)| >= 1
    ensures |ToBinaryString(n)| > 1 ==> ToBinaryString(n)[0] == '1'
  {
    if n >= 2 {
      var t := ToBinaryString(n / 2);
      ToBinaryStringValue(n / 2);
      assert (t + [Digit(n % 2)])[..|t|] == t;
    }
  }

  /** `n.toString(2)` has at most `w` digits when `n < 2^w`. */
  lemma {:induction false} ToBinaryStringLength(n: nat, w: nat)
    requires 1 <= w && n < Pow2(w)
    ensures |ToBinaryString(n)| <= w
  {
    if n >= 2 && w > 1 {
      ToBinaryStringLength(n / 2, w - 1);
    }
  }

  /** `s.padStart(width, pad)` for a one-character `pad`. */
  function PadStart(s: string, width: nat, pad: char): (r: string)
    ensures |r| == if |s| < width then width else |s|
    ensures r[|r| - |s|..] == s
    ensures forall i :: 0 <= i < |r| - |s| ==> r[i] == pad
  {
    if |s| < width then seq(width - |s|, _ => pad) + s else s
  }

  /** `n.toString(2).padStart(w, '0')` is the `w`-bit numeral of `n`. */
  lemma PadStartBinary(n: nat, w: nat)
    requires 1 <= w && n < Pow2(w)
    ensures PadStart(ToBinaryString(n), w, '0') == Bits(n, w)
  {
    var t := ToBinaryString(n);
    ToBinaryStringValue(n);
    ToBinaryStringLength(n, w);
    var r := PadStart(t, w, '0');
    PadStartZeros(t, w);
    ValueZerosPrefix(w - |t|, t);
    ValueOfSmallBits(n, w);
    BitsOfValue(r);
  }

  /** Padding a numeral with '0' puts zeros in front and keeps it a numeral. */
  lemma PadStartZeros(t: string, w: nat)
    requires IsBinary(t) && |t| <= w
    ensures PadStart(t, w, '0') == Zeros(w - |t|) + t
    ensures IsBinary(PadStart(t, w, '0'))
  {
    var r := PadStart(t, w, '0');
    var z := Zeros(w - |t|);
    assert r == z + t by {
      assert |r| == |z + t|;
      forall i | 0 <= i < |r|
        ensures r[i] == (z + t)[i]
      {
        if i >= |z| {
          assert r[i] == r[|r| - |t|..][i - |z|];
        }
      }
    }
  }

  /** `s.slice(start, end)` for non-negative `start` and `end`. */
  function Slice(s: string, start: nat, end: nat): (r: string)
    ensures start <= end <= |s| ==> r == s[start..end]
    ensures start <= |s| <= end ==> r == s[start..]
    ensures |s| <= start ==> r == []
  {
    var from, to := Min(start, |s|), Min(end, |s|);
    if from < to then s[from..to] else []
  }

  /**
   * The digit loop of `parseInt(_, 2)`: reads binary digits from the left,
   * doubling the accumulator and adding each digit, and stops at the first
   * character that is not a binary digit.
   */
  function ParseDigits(s: string, acc: nat): nat {
    if s == [] || !IsDigit(s[0]) then acc else ParseDigits(s[1..], 2 * acc + DigitValue(s[0]))
  }

  /**
   * `parseInt(s, 2)`: the value of the leading binary digits of `s`, or
   * `None` (JavaScript's `NaN`) when `s` does not start with one.
   */
  function ParseInt2(s: string): Option<nat> {
    if s == [] || !IsDigit(s[0]) then None else Some(ParseDigits(s, 0))
  }

  /** Reading a whole numeral shifts the accumulator past it and adds its value. */
  lemma {:induction false} ParseDigitsBinary(s: string, acc: nat)
    requires IsBinary(s)
    ensures ParseDigits(s, acc) == acc * Pow2(|s|) + Value(s)
  {
    if s != [] {
      var d, rest := DigitValue(s[0]), s[1..];
      ParseDigitsBinary(rest, 2 * acc + d);
      assert s == [s[0]] + rest;
      ValueAppend([s[0]], rest);
      assert Value([s[0]]) == d by {
        assert [s[0]][..0] == [];
      }
      ShiftStep(acc, d, Pow2(|rest|), Value(rest));
    }
  }

  lemma ShiftStep(acc: nat, d: nat, p: nat, v: nat)
    ensures (2 * acc + d) * p + v == acc * (2 * p) + (d * p + v)
  {
  }

  /** On a string of binary digits `parseInt(_, 2)` is its value, and `NaN` on the empty string. */
  lemma ParseInt2Binary(s: string)
    requires IsBinary(s)
    ensures ParseInt2(s) == if s == [] then None else Some(Value(s))
  {
    if s != [] {
      ParseDigitsBinary(s, 0);
    }
  }

  /** `words.join(sep)`. */
  function Join(words: seq<string>, sep: string): string {
    if |words| == 0 then ""
    else if |words| == 1 then words[0]
    else words[0] + sep + Join(words[1..], sep)
  }

  /**
   * A join of non-empty words starts with the first word's first character
   * and ends with the last word's last character.
   */
  lemma {:induction false} JoinEnds(words: seq<string>, sep: string)
    requires |words| >= 1
    requires forall k :: 0 <= k < |words| ==> words[k] != ""
    ensures |Join(words, sep)| >= 1
    ensures Join(words, sep)[0] == words[0][0]
    ensures Join(words, sep)[|Join(words, sep)| - 1] == words[|words| - 1][|words[|words| - 1]| - 1]
  {
    if |words| > 1 {
      JoinEnds(words[1..], sep);
    }
  }

  /** `s.split(c)` for a one-character separator `c`. */
  function Split(s: string, c: char): (parts: seq<string>)
    ensures |parts| >= 1
  {
    if s == [] then [""]
    else if s[0] == c then [""] + Split(s[1..], c)
    else
      var rest := Split(s[1..], c);
      [[s[0]] + rest[0]] + rest[1..]
  }

  /** A piece without the separator splits to itself. */
  lemma {:induction false} SplitPiece(w: string, c: char)
    requires c !in w
    ensures Split(w, c) == [w]
  {
    if w != [] {
      SplitPiece(w[1..], c);
      assert [w[0]] + w[1..] == w;
    }
  }

  /** Splitting `w + c + rest` peels off `w` when `w` holds no `c`. */
  lemma {:induction false} SplitFront(w: string, c: char, rest: string)
    requires c !in w
    ensures Split(w + [c] + rest, c) == [w] + Split(rest, c)
  {
    if w == [] {
      assert w + [c] + rest == [c] + rest;
      assert ([c] + rest)[1..] == rest;
    } else {
      SplitFront(w[1..], c, rest);
      assert (w + [c] + rest)[1..] == w[1..] + [c] + rest;
      assert [w[0]] + w[1..] == w;
    }
  }

  /**
   * Joining words on a one-character separator and splitting on it gives
   * the words back, provided none of them contains the separator.
   */
  lemma {:induction false} SplitJoin(words: seq<string>, c: char)
    requires |words| >= 1
    requires forall k :: 0 <= k < |words| ==> c !in words[k]
    ensures Split(Join(words, [c]), c) == words
  {
    if |words| == 1 {
      SplitPiece(words[0], c);
    } else {
      SplitJoin(words[1..], c);
      SplitFront(words[0], c, Join(words[1..], [c]));
      assert [words[0]] + words[1..] == words;
    }
  }
}
