/** Bytes, '0'/'1' digit strings and the unsigned numbers they denote.
    Shared by the chunk codec, the container codec and the code-table builder. */
module Binary {

  /** A Go `byte`. */
  type byte = x: int | 0 <= x < 256

  datatype Option<+T> = None | Some(value: T)

  /** A Go call that either returns a value or panics / reports an error. */
  datatype Result<+T, +E> = Ok(value: T) | Err(error: E)

  function Pow2(n: nat): (r: nat)
    ensures r >= 1
  {
    if n == 0 then 1 else 2 * Pow2(n - 1)
  }

  predicate IsBinary(s: string) {
    forall i :: 0 <= i < |s| ==> s[i] == '0' || s[i] == '1'
  }

  function Digit(c: char): nat {
    if c == '1' then 1 else 0
  }

  /** Unsigned big-endian base-2 value of a digit string, most significant digit first. */
  function Value(s: string): nat {
    if s == [] then 0 else 2 * Value(s[..|s| - 1]) + Digit(s[|s| - 1])
  }

  /** The `width` low-order bits of `n`, most significant first, as '0'/'1' characters
      (Go's `%0*b` for a value that fits in `width` bits). */
  function BinDigits(n: nat, width: nat): (r: string)
    ensures |r| == width && IsBinary(r)
  {
    if width == 0 then "" else BinDigits(n / 2, width - 1) + [if n % 2 == 1 then '1' else '0']
  }

  function Zeros(n: nat): (r: string)
    ensures |r| == n && forall i :: 0 <= i < n ==> r[i] == '0'
  {
    if n == 0 then "" else Zeros(n - 1) + "0"
  }

  lemma {:induction false} ValueBound(s: string)
    ensures Value(s) < Pow2(|s|)
  {
    if s != [] {
      ValueBound(s[..|s| - 1]);
    }
  }

  /** Rendering a number that fits in `width` bits and reading it back gives the number. */
  lemma {:induction false} ValueOfBinDigits(n: nat, width: nat)
    requires n < Pow2(width)
    ensures Value(BinDigits(n, width)) == n
  {
    if width > 0 {
      var s := BinDigits(n, width);
      assert s[..|s| - 1] == BinDigits(n / 2, width - 1);
      ValueOfBinDigits(n / 2, width - 1);
    }
  }

  /** Reading a digit string and rendering its value at the same width gives the string. */
  lemma {:induction false} BinDigitsOfValue(s: string)
    requires IsBinary(s)
    ensures BinDigits(Value(s), |s|) == s
  {
    if s != [] {
      var init := s[..|s| - 1];
      assert IsBinary(init) by {
        forall i | 0 <= i < |init| ensures init[i] == '0' || init[i] == '1' {
          assert init[i] == s[i];
        }
      }
      BinDigitsOfValue(init);
      assert Value(s) / 2 == Value(init);
      assert s == init + [s[|s| - 1]];
    }
  }

  /** Appending one digit doubles the range: a pattern of width w+1 whose value is 2b+x
      is the width-w pattern of b followed by digit x. */
  lemma BinDigitsPush(b: nat, width: nat, x: nat)
    requires x < 2
    ensures BinDigits(2 * b + x, width + 1) == BinDigits(b, width) + [if x == 1 then '1' else '0']
  {
    assert (2 * b + x) / 2 == b && (2 * b + x) % 2 == x;
  }
}
