/** The bit-chunk codec of lib/compression/vlc/chunks.go: a '0'/'1' string is cut into
    fixed-width chunks, each 8-digit chunk becomes one byte, and bytes become chunks again. */
module Chunks {
  import opened Binary

  /** How `strconv.ParseUint(s, 2, 8)` fails. */
  datatype ParseError = Syntax | Range

  // ---------------------------------------------------------------------------
  // Single chunks

  /** `NewBinChunk`: the byte written as exactly eight binary digits, most significant first. */
  function NewBinChunk(b: byte): (r: string)
    ensures |r| == 8 && IsBinary(r) && Value(r) == b
  {
    assert Pow2(8) == 256;
    ValueOfBinDigits(b, 8);
    BinDigits(b, 8)
  }

  /** Length of the longest prefix of `s` made of '0'/'1' characters. */
  function BinPrefix(s: string): (k: nat)
    ensures k <= |s| && IsBinary(s[..k])
    ensures k < |s| ==> s[k] != '0' && s[k] != '1'
    ensures k == |s| <==> IsBinary(s)
  {
    if s == [] || (s[0] != '0' && s[0] != '1') then 0
    else
      var k' := BinPrefix(s[1..]);
      assert s[..1 + k'] == [s[0]] + s[1..][..k'];
      assert IsBinary(s) ==> IsBinary(s[1..]) by {
        if IsBinary(s) {
          forall i | 0 <= i < |s| - 1 ensures s[1..][i] == '0' || s[1..][i] == '1' {
            assert s[1..][i] == s[i + 1];
          }
        }
      }
      assert IsBinary(s[1..]) ==> IsBinary(s) by {
        if IsBinary(s[1..]) {
          forall i | 0 < i < |s| ensures s[i] == '0' || s[i] == '1' {
            assert s[i] == s[1..][i - 1];
          }
        }
      }
      1 + k'
  }

  /** The value of the digits `s` read after a running value n, most significant first. */
  function ValueFrom(n: nat, s: string): nat
    decreases |s|
  {
    if s == [] then n else ValueFrom(2 * n + Digit(s[0]), s[1..])
  }

  /** The digit loop of `strconv.ParseUint(s, 2, 8)` from running value n < 256: a
      character other than '0'/'1' is a syntax error, and a running value above 255 is a
      range error at once, before any later character is looked at. */
  function ParseBits(s: string, n: nat): (r: Result<byte, ParseError>)
    requires n < 256
    decreases |s|
  {
    if s == [] then Ok(n)
    else if s[0] != '0' && s[0] != '1' then Err(Syntax)
    else if 2 * n + Digit(s[0]) > 255 then Err(Range)
    else ParseBits(s[1..], 2 * n + Digit(s[0]))
  }

  /** `BinaryChunk.Byte`: `strconv.ParseUint(s, 2, 8)`, whose two failures the source turns
      into panics; here they are `Err`. The empty chunk is a syntax error; otherwise the
      error is a range error exactly when the '0'/'1' digits before the first other
      character already exceed 255. */
  function Byte(bc: string): (r: Result<byte, ParseError>)
    ensures r.Ok? <==> |bc| > 0 && IsBinary(bc) && Value(bc) < 256
    ensures r.Ok? ==> r.value == Value(bc)
    ensures r == Err(Range) <==> |bc| > 0 && Value(bc[..BinPrefix(bc)]) >= 256
    ensures r == Err(Syntax) <==> |bc| == 0 || (!IsBinary(bc) && Value(bc[..BinPrefix(bc)]) < 256)
  {
    if |bc| == 0 then Err(Syntax)
    else
      ParseBitsSpec(bc, 0);
      ValueFromZero(bc[..BinPrefix(bc)]);
      ValueFromZero(bc);
      ParseBits(bc, 0)
  }

  /** ParseBits succeeds on a '0'/'1' string whose value stays below 256, fails with a
      range error exactly when the '0'/'1' prefix reaches 256, and with a syntax error
      otherwise. */
  lemma {:induction false} ParseBitsSpec(s: string, n: nat)
    requires n < 256
    ensures ParseBits(s, n).Ok? <==> IsBinary(s) && ValueFrom(n, s) < 256
    ensures ParseBits(s, n).Ok? ==> ParseBits(s, n).value == ValueFrom(n, s)
    ensures ParseBits(s, n) == Err(Range) <==> ValueFrom(n, s[..BinPrefix(s)]) >= 256
    ensures ParseBits(s, n) == Err(Syntax) <==> !IsBinary(s) && ValueFrom(n, s[..BinPrefix(s)]) < 256
    decreases |s|
  {
    if s != [] && (s[0] == '0' || s[0] == '1') {
      var m := 2 * n + Digit(s[0]);
      var k := BinPrefix(s);
      assert s[..k][1..] == s[1..][..BinPrefix(s[1..])];
      assert ValueFrom(n, s[..k]) == ValueFrom(m, s[1..][..BinPrefix(s[1..])]);
      ValueFromAtLeast(m, s[1..][..BinPrefix(s[1..])]);
      ValueFromAtLeast(m, s[1..]);
      if m <= 255 {
        ParseBitsSpec(s[1..], m);
      }
    } else if s != [] {
      assert s[..BinPrefix(s)] == [];
    }
  }

  lemma {:induction false} ValueFromAtLeast(n: nat, s: string)
    ensures ValueFrom(n, s) >= n
    decreases |s|
  {
    if s != [] {
      ValueFromAtLeast(2 * n + Digit(s[0]), s[1..]);
    }
  }

  /** Appending a digit doubles the running value and adds the digit. */
  lemma {:induction false} ValueFromSnoc(n: nat, s: string, c: char)
    ensures ValueFrom(n, s + [c]) == 2 * ValueFrom(n, s) + Digit(c)
    decreases |s|
  {
    if s == [] {
      assert [c][1..] == [];
    } else {
      assert (s + [c])[1..] == s[1..] + [c];
      ValueFromSnoc(2 * n + Digit(s[0]), s[1..], c);
    }
  }

  /** Reading from the front with running value 0 gives the value read from the back. */
  lemma {:induction false} ValueFromZero(s: string)
    ensures ValueFrom(0, s) == Value(s)
    decreases |s|
  {
    if s != [] {
      var init := s[..|s| - 1];
      ValueFromZero(init);
      ValueFromSnoc(0, init, s[|s| - 1]);
      assert init + [s[|s| - 1]] == s;
    }
  }

  /** `ParseUint` reads left to right: nine 1s overflow before the bad character after
      them is reached. */
  lemma ByteRangeFirst()
    ensures Byte("111111111x") == Err(Range)
  {
    assert ParseBits("1x", 255) == Err(Range);
    assert ParseBits("11x", 127) == Err(Range) by { assert "11x"[1..] == "1x"; }
    assert ParseBits("111x", 63) == Err(Range) by { assert "111x"[1..] == "11x"; }
    assert ParseBits("1111x", 31) == Err(Range) by { assert "1111x"[1..] == "111x"; }
    assert ParseBits("11111x", 15) == Err(Range) by { assert "11111x"[1..] == "1111x"; }
    assert ParseBits("111111x", 7) == Err(Range) by { assert "111111x"[1..] == "11111x"; }
    assert ParseBits("1111111x", 3) == Err(Range) by { assert "1111111x"[1..] == "111111x"; }
    assert ParseBits("11111111x", 1) == Err(Range) by { assert "11111111x"[1..] == "1111111x"; }
    assert ParseBits("111111111x", 0) == Err(Range) by { assert "111111111x"[1..] == "11111111x"; }
  }

  /** A bad character before any overflow, and the empty chunk, are syntax errors. */
  lemma ByteSyntaxExamples()
    ensures Byte("1x") == Err(Syntax)
    ensures Byte("") == Err(Syntax)
  {
    assert ParseBits("1x", 0) == ParseBits("x", 1) by { assert "1x"[1..] == "x"; }
  }

  /** Byte undoes NewBinChunk for every byte. */
  lemma ByteOfNewBinChunk(b: byte)
    ensures Byte(NewBinChunk(b)) == Ok(b)
  {
  }

  /** NewBinChunk undoes Byte on every full-width chunk. */
  lemma NewBinChunkOfByte(bc: string)
    requires |bc| == 8 && IsBinary(bc)
    ensures Byte(bc).Ok? && NewBinChunk(Byte(bc).value) == bc
  {
    ValueBound(bc);
    assert Pow2(8) == 256;
    BinDigitsOfValue(bc);
  }

  // ---------------------------------------------------------------------------
  // Sequences of chunks: specification functions

  /** The chunks of a byte sequence, one per byte, in order. */
  function ChunksOf(data: seq<byte>): (r: seq<string>)
    ensures |r| == |data|
    ensures forall i :: 0 <= i < |data| ==> r[i] == NewBinChunk(data[i])
  {
    if data == [] then [] else [NewBinChunk(data[0])] + ChunksOf(data[1..])
  }

  /** All chunks are parsed; the first chunk that does not parse decides the error. */
  function BytesOf(chunks: seq<string>): (r: Result<seq<byte>, ParseError>)
    ensures r.Ok? <==> forall i :: 0 <= i < |chunks| ==> Byte(chunks[i]).Ok?
    ensures r.Ok? ==> |r.value| == |chunks|
    ensures r.Ok? ==> forall i :: 0 <= i < |chunks| ==> r.value[i] == Byte(chunks[i]).value
  {
    if chunks == [] then Ok([])
    else
      match Byte(chunks[0])
      case Err(e) => Err(e)
      case Ok(b) =>
        match BytesOf(chunks[1..])
        case Err(e) => Err(e)
        case Ok(rest) => Ok([b] + rest)
  }

  /** The chunks written one after another. */
  function Flatten(chunks: seq<string>): string {
    if chunks == [] then "" else Flatten(chunks[..|chunks| - 1]) + chunks[|chunks| - 1]
  }

  function TotalLength(chunks: seq<string>): nat {
    if chunks == [] then 0 else TotalLength(chunks[..|chunks| - 1]) + |chunks[|chunks| - 1]|
  }

  /** Every chunk has exactly `k` characters. */
  predicate AllWidth(chunks: seq<string>, k: nat) {
    forall j :: 0 <= j < |chunks| ==> |chunks[j]| == k
  }

  /** Number of '0' characters that complete the last chunk of an n-character string. */
  function PadLen(n: nat, k: nat): nat
    requires k > 0
  {
    if n == 0 then 0 else if n <= k then k - n else PadLen(n - k, k)
  }

  /** `splitByChanks`: consecutive k-character chunks, the last one right-padded with '0'. */
  function Split(s: string, k: nat): seq<string>
    requires k > 0
    decreases |s|
  {
    if |s| == 0 then []
    else if |s| <= k then [s + Zeros(k - |s|)]
    else [s[..k]] + Split(s[k..], k)
  }

  // ---------------------------------------------------------------------------
  // Properties of the specification functions

  lemma {:induction false} FlattenAppend(a: seq<string>, b: seq<string>)
    ensures Flatten(a + b) == Flatten(a) + Flatten(b)
    decreases |b|
  {
    if b == [] {
      assert a + b == a;
    } else {
      var b', last := b[..|b| - 1], b[|b| - 1];
      assert (a + b)[..|a + b| - 1] == a + b' && (a + b)[|a + b| - 1] == last;
      assert Flatten(a + b) == Flatten(a + b') + last;
      FlattenAppend(a, b');
      assert Flatten(b) == Flatten(b') + last;
    }
  }

  /** `Join` keeps every character: its length is the sum of the chunk lengths. */
  lemma {:induction false} FlattenLength(chunks: seq<string>)
    ensures |Flatten(chunks)| == TotalLength(chunks)
  {
    if chunks != [] {
      FlattenLength(chunks[..|chunks| - 1]);
    }
  }

  lemma {:induction false} FlattenUniform(chunks: seq<string>, k: nat)
    requires AllWidth(chunks, k)
    ensures |Flatten(chunks)| == k * |chunks|
  {
    if chunks != [] {
      FlattenUniform(chunks[..|chunks| - 1], k);
      assert k * |chunks| == k * (|chunks| - 1) + k;
    }
  }

  /** Chunks of one width are determined by their concatenation. */
  lemma {:induction false} FlattenInjective(a: seq<string>, b: seq<string>, k: nat)
    requires k > 0 && AllWidth(a, k) && AllWidth(b, k)
    requires Flatten(a) == Flatten(b)
    ensures a == b
    decreases |a|
  {
    FlattenUniform(a, k);
    FlattenUniform(b, k);
    if a != [] && b != [] {
      var a', b' := a[..|a| - 1], b[..|b| - 1];
      assert Flatten(a') + a[|a| - 1] == Flatten(b') + b[|b| - 1];
      CancelSuffix(Flatten(a'), a[|a| - 1], Flatten(b'), b[|b| - 1]);
      FlattenInjective(a', b', k);
      assert a == a' + [a[|a| - 1]];
      assert b == b' + [b[|b| - 1]];
    }
  }

  /** Two concatenations that agree and end in pieces of one length agree piecewise. */
  lemma CancelSuffix(x: string, y: string, u: string, v: string)
    requires x + y == u + v && |y| == |v|
    ensures x == u && y == v
  {
    assert x == (x + y)[..|x|];
    assert u == (u + v)[..|u|];
    assert y == (x + y)[|x|..];
    assert v == (u + v)[|u|..];
  }

  lemma MulAtLeast(k: int, d: int)
    requires k > 0 && d >= 1
    ensures k * d >= k
    decreases d
  {
    if d > 1 {
      assert k * d == k * (d - 1) + k;
      MulAtLeast(k, d - 1);
    }
  }

  /** Quotient and remainder are the unique q, r with n == k*q + r and 0 <= r < k. */
  lemma DivModUnique(n: int, k: int, q: int, r: int)
    requires k > 0 && 0 <= r < k && n == k * q + r
    ensures n / k == q && n % k == r
  {
    var q0, r0 := n / k, n % k;
    assert n == k * q0 + r0;
    assert k * (q - q0) == r0 - r by {
      assert k * (q - q0) == k * q - k * q0;
    }
    assert k * (q0 - q) == r - r0 by {
      assert k * (q0 - q) == k * q0 - k * q;
    }
    if q > q0 {
      MulAtLeast(k, q - q0);
    } else if q < q0 {
      MulAtLeast(k, q0 - q);
    }
  }

  lemma DivStep(n: nat, k: nat)
    requires k > 0
    ensures (n + k) / k == n / k + 1 && (n + k) % k == n % k
  {
    var q, r := n / k, n % k;
    assert n == k * q + r;
    assert n + k == k * (q + 1) + r by {
      assert k * (q + 1) == k * q + k;
    }
    DivModUnique(n + k, k, q + 1, r);
  }

  /** The padding is what the remainder leaves to fill, (k - n mod k) mod k: none when k
      divides n. */
  lemma {:induction false} PadLenOfRem(n: nat, k: nat)
    requires k > 0
    ensures PadLen(n, k) == if n % k == 0 then 0 else k - n % k
    ensures PadLen(n, k) == (k - n % k) % k
    decreases n
  {
    if n == 0 {
      DivModUnique(0, k, 0, 0);
    } else if n < k {
      DivModUnique(n, k, 0, n);
    } else if n == k {
      DivModUnique(n, k, 1, 0);
    } else {
      PadLenOfRem(n - k, k);
      DivStep(n - k, k);
    }
    if n % k == 0 {
      DivModUnique(k, k, 1, 0);
    } else {
      DivModUnique(k - n % k, k, 0, k - n % k);
    }
  }

  /** `splitByChanks` yields ceil(|s|/k) chunks, each of exactly k characters. */
  lemma {:induction false} SplitShape(s: string, k: nat)
    requires k > 0
    ensures |Split(s, k)| == (|s| + k - 1) / k
    ensures AllWidth(Split(s, k), k)
    decreases |s|
  {
    if |s| == 0 {
      DivModUnique(k - 1, k, 0, k - 1);
    } else if |s| <= k {
      DivModUnique(|s| - 1, k, 0, |s| - 1);
      DivStep(|s| - 1, k);
      assert Split(s, k) == [s + Zeros(k - |s|)];
    } else {
      var rest := s[k..];
      SplitShape(rest, k);
      assert |rest| + k - 1 == |s| - 1;
      DivStep(|s| - 1, k);
      var chunks := Split(s, k);
      assert chunks == [s[..k]] + Split(rest, k);
      forall j | 0 <= j < |chunks| ensures |chunks[j]| == k {
        if j > 0 {
          assert chunks[j] == Split(rest, k)[j - 1];
        }
      }
    }
  }

  /** Joining the chunks gives the input followed by the zero padding, so the first |s|
      characters of the join are exactly s. */
  lemma {:induction false} SplitJoin(s: string, k: nat)
    requires k > 0
    ensures Flatten(Split(s, k)) == s + Zeros(PadLen(|s|, k))
    ensures Flatten(Split(s, k))[..|s|] == s
    decreases |s|
  {
    var pad := Zeros(PadLen(|s|, k));
    if |s| == 0 {
      assert Flatten(Split(s, k)) == s + pad;
    } else if |s| <= k {
      var last := s + Zeros(k - |s|);
      assert Split(s, k) == [last];
      FlattenCons(last, []);
    } else {
      var rest := s[k..];
      SplitJoin(rest, k);
      assert Split(s, k) == [s[..k]] + Split(rest, k);
      FlattenCons(s[..k], Split(rest, k));
      assert PadLen(|s|, k) == PadLen(|rest|, k);
      Reassociate(s[..k], rest, pad);
      assert s[..k] + rest == s;
    }
    assert (s + pad)[..|s|] == s;
  }

  lemma FlattenCons(x: string, rest: seq<string>)
    ensures Flatten([x] + rest) == x + Flatten(rest)
  {
    FlattenAppend([x], rest);
    assert [x][..0] == [];
    assert Flatten([x]) == "" + x;
  }

  lemma Reassociate(a: string, b: string, c: string)
    ensures a + (b + c) == (a + b) + c
  {
  }

  /** Equal-width chunks whose join is s plus its padding are exactly splitByChanks(s, k). */
  lemma SplitCharacterization(s: string, k: nat, chunks: seq<string>)
    requires k > 0 && AllWidth(chunks, k)
    requires Flatten(chunks) == s + Zeros(PadLen(|s|, k))
    ensures chunks == Split(s, k)
  {
    SplitShape(s, k);
    SplitJoin(s, k);
    FlattenInjective(chunks, Split(s, k), k);
  }

  /** Every chunk cut from a '0'/'1' string is a '0'/'1' string. */
  lemma {:induction false} SplitBinary(s: string, k: nat)
    requires k > 0 && IsBinary(s)
    ensures forall j :: 0 <= j < |Split(s, k)| ==> IsBinary(Split(s, k)[j])
    decreases |s|
  {
    if |s| > k {
      assert IsBinary(s[k..]) by {
        forall i | 0 <= i < |s| - k ensures s[k..][i] == '0' || s[k..][i] == '1' {
          assert s[k..][i] == s[k + i];
        }
      }
      SplitBinary(s[k..], k);
    }
  }

  /** Packing then unpacking restores full-width chunks: bytes -> chunks is the inverse
      of chunks -> bytes on 8-digit '0'/'1' chunks. */
  lemma ChunksOfBytesOf(chunks: seq<string>)
    requires AllWidth(chunks, 8)
    requires forall j :: 0 <= j < |chunks| ==> IsBinary(chunks[j])
    ensures BytesOf(chunks).Ok?
    ensures ChunksOf(BytesOf(chunks).value) == chunks
  {
    forall j | 0 <= j < |chunks| ensures Byte(chunks[j]).Ok? && NewBinChunk(Byte(chunks[j]).value) == chunks[j] {
      NewBinChunkOfByte(chunks[j]);
    }
  }

  /** For a '0'/'1' string s: NewBinChunks(splitByChanks(s, 8).Bytes()).Join() equals
      splitByChanks(s, 8).Join(). */
  lemma RepackIdentity(s: string)
    requires IsBinary(s)
    ensures BytesOf(Split(s, 8)).Ok?
    ensures Flatten(ChunksOf(BytesOf(Split(s, 8)).value)) == Flatten(Split(s, 8))
  {
    SplitShape(s, 8);
    SplitBinary(s, 8);
    ChunksOfBytesOf(Split(s, 8));
  }

  /** Packing a string into bytes succeeds exactly when it is a '0'/'1' string; otherwise
      `Bytes` panics on the first chunk holding another character. */
  lemma PackOkIffBinary(s: string)
    ensures BytesOf(Split(s, 8)).Ok? <==> IsBinary(s)
  {
    var chunks := Split(s, 8);
    SplitShape(s, 8);
    if IsBinary(s) {
      SplitBinary(s, 8);
      ChunksOfBytesOf(chunks);
    }
    if BytesOf(chunks).Ok? {
      FlattenBinary(chunks);
      SplitJoin(s, 8);
      var f := Flatten(chunks);
      forall i | 0 <= i < |s| ensures s[i] == '0' || s[i] == '1' {
        assert s[i] == f[..|s|][i];
      }
    }
  }

  /** Unpacking n bytes gives 8n binary digits. */
  lemma UnpackShape(data: seq<byte>)
    ensures |Flatten(ChunksOf(data))| == 8 * |data|
    ensures IsBinary(Flatten(ChunksOf(data)))
  {
    FlattenUniform(ChunksOf(data), 8);
    FlattenBinary(ChunksOf(data));
  }

  lemma {:induction false} FlattenBinary(chunks: seq<string>)
    requires forall j :: 0 <= j < |chunks| ==> IsBinary(chunks[j])
    ensures IsBinary(Flatten(chunks))
  {
    if chunks != [] {
      FlattenBinary(chunks[..|chunks| - 1]);
      var a, b := Flatten(chunks[..|chunks| - 1]), chunks[|chunks| - 1];
      forall i | 0 <= i < |a + b| ensures (a + b)[i] == '0' || (a + b)[i] == '1' {
        if i >= |a| { assert (a + b)[i] == b[i - |a|]; }
      }
    }
  }

  // ---------------------------------------------------------------------------
  // The source's loops

  /** `NewBinChunks`: one chunk per byte, appended in order. */
  method NewBinChunks(data: seq<byte>) returns (res: seq<string>)
    ensures |res| == |data|
    ensures forall i :: 0 <= i < |data| ==> res[i] == NewBinChunk(data[i])
  {
    res := [];
    for i := 0 to |data|
      invariant |res| == i
      invariant forall j :: 0 <= j < i ==> res[j] == NewBinChunk(data[j])
    {
      res := res + [NewBinChunk(data[i])];
    }
  }

  /** The error of the first chunk that does not parse is the error of the whole. */
  lemma {:induction false} BytesOfFirstError(chunks: seq<string>, i: nat)
    requires i < |chunks| && Byte(chunks[i]).Err?
    requires forall j :: 0 <= j < i ==> Byte(chunks[j]).Ok?
    ensures BytesOf(chunks) == Err(Byte(chunks[i]).error)
  {
    if i > 0 {
      BytesOfFirstError(chunks[1..], i - 1);
    }
  }

  /** `BinaryChunks.Bytes`: every chunk parsed in order; the first bad chunk ends it. */
  method Bytes(chunks: seq<string>) returns (r: Result<seq<byte>, ParseError>)
    ensures r == BytesOf(chunks)
  {
    var res: seq<byte> := [];
    for i := 0 to |chunks|
      invariant |res| == i
      invariant forall j :: 0 <= j < i ==> Byte(chunks[j]).Ok? && res[j] == Byte(chunks[j]).value
    {
      var b := Byte(chunks[i]);
      if b.Err? {
        BytesOfFirstError(chunks, i);
        return Err(b.error);
      }
      res := res + [b.value];
    }
    assert BytesOf(chunks).Ok?;
    assert BytesOf(chunks).value == res;
    return Ok(res);
  }

  /** `BinaryChunks.Join`: the chunks written into one buffer in order. */
  method Join(chunks: seq<string>) returns (s: string)
    ensures s == Flatten(chunks)
  {
    s := "";
    for i := 0 to |chunks|
      invariant s == Flatten(chunks[..i])
    {
      assert chunks[..i + 1][..i] == chunks[..i];
      s := s + chunks[i];
    }
    assert chunks[..|chunks|] == chunks;
  }

  lemma ModStep(i: nat, k: nat)
    requires k > 0
    ensures (i + 1) % k == if i % k + 1 == k then 0 else i % k + 1
  {
    var q, r := i / k, i % k;
    assert i == k * q + r;
    if r + 1 == k {
      assert i + 1 == k * (q + 1) + 0 by {
        assert k * (q + 1) == k * q + k;
      }
      DivModUnique(i + 1, k, q + 1, 0);
    } else {
      DivModUnique(i + 1, k, q, r + 1);
    }
  }

  /** `splitByChanks`: characters go into a buffer that is flushed as a chunk whenever
      (i+1) is a multiple of k; a non-empty remainder is padded with '0' and flushed. */
  method SplitByChunks(bStr: string, chunkSize: nat) returns (res: seq<string>)
    requires chunkSize > 0
    ensures res == Split(bStr, chunkSize)
  {
    var k := chunkSize;
    res := [];
    var buf := "";
    for i := 0 to |bStr|
      invariant |buf| == i % k
      invariant AllWidth(res, k)
      invariant Flatten(res) + buf == bStr[..i]
    {
      ModStep(i, k);
      BufferStep(Flatten(res), buf, bStr, i);
      buf := buf + [bStr[i]];
      if (i + 1) % k == 0 {
        FlattenSnoc(res, buf);
        AllWidthSnoc(res, buf, k);
        res := res + [buf];
        buf := "";
      }
    }
    assert bStr[..|bStr|] == bStr;
    if |buf| != 0 {
      var lastChunk := buf + Zeros(k - |buf|);
      FlattenSnoc(res, lastChunk);
      AllWidthSnoc(res, lastChunk, k);
      res := res + [lastChunk];
    }
    PadLenOfRem(|bStr|, k);
    SplitCharacterization(bStr, k, res);
  }

  /** Appending the next character to the buffer keeps "flushed chunks + buffer" equal
      to the prefix read so far. */
  lemma BufferStep(flushed: string, buf: string, s: string, i: nat)
    requires i < |s| && flushed + buf == s[..i]
    ensures flushed + (buf + [s[i]]) == s[..i + 1]
  {
    assert s[..i + 1] == s[..i] + [s[i]];
  }

  lemma FlattenSnoc(chunks: seq<string>, c: string)
    ensures Flatten(chunks + [c]) == Flatten(chunks) + c
  {
    assert (chunks + [c])[..|chunks|] == chunks;
  }

  lemma AllWidthSnoc(chunks: seq<string>, c: string, k: nat)
    requires AllWidth(chunks, k) && |c| == k
    ensures AllWidth(chunks + [c], k)
  {
  }

  // ---------------------------------------------------------------------------
  // The vectors of lib/compression/vlc/chunks_test.go

  lemma SplitExample()
    ensures Split("001000100110100101", 8) == ["00100010", "01101001", "01000000"]
  {
    var s := "001000100110100101";
    assert s[..8] == "00100010" && s[8..] == "0110100101";
    assert "0110100101"[..8] == "01101001" && "0110100101"[8..] == "01";
    assert Zeros(6) == "000000";
    assert "01" + Zeros(6) == "01000000";
    assert Split("01", 8) == ["01000000"];
    assert Split("0110100101", 8) == ["01101001"] + Split("01", 8);
  }

  lemma JoinExamples()
    ensures Flatten(["00100010", "01101001", "01000000"]) == "001000100110100101000000"
    ensures Flatten(["00100010", "011010"]) == "00100010011010"
  {
    var first: seq<string> := ["00100010"];
    assert Flatten(first) == "00100010" by { FlattenSnoc([], "00100010"); }
    FlattenSnoc(first, "01101001");
    FlattenSnoc(first + ["01101001"], "01000000");
    assert first + ["01101001"] + ["01000000"] == ["00100010", "01101001", "01000000"];
    FlattenSnoc(first, "011010");
    assert first + ["011010"] == ["00100010", "011010"];
  }

  lemma NewBinChunkExamplesLow()
    ensures BinDigits(20, 8) == "00010100" && BinDigits(18, 8) == "00010010"
  {
    assert BinDigits(0, 3) == "000" && BinDigits(1, 4) == "0001";
    assert BinDigits(2, 5) == "00010" && BinDigits(5, 6) == "000101" && BinDigits(10, 7) == "0001010";
    assert BinDigits(4, 6) == "000100" && BinDigits(9, 7) == "0001001";
  }

  lemma NewBinChunkExamplesHigh()
    ensures BinDigits(30, 8) == "00011110" && BinDigits(60, 8) == "00111100"
  {
    assert BinDigits(0, 3) == "000" && BinDigits(1, 4) == "0001" && BinDigits(3, 5) == "00011";
    assert BinDigits(7, 6) == "000111" && BinDigits(15, 7) == "0001111";
    assert BinDigits(0, 2) == "00" && BinDigits(1, 3) == "001" && BinDigits(3, 4) == "0011";
    assert BinDigits(7, 5) == "00111" && BinDigits(15, 6) == "001111" && BinDigits(30, 7) == "0011110";
  }

  lemma NewBinChunksExample()
    ensures ChunksOf([20, 30, 60, 18]) == ["00010100", "00011110", "00111100", "00010010"]
  {
    NewBinChunkExamplesLow();
    NewBinChunkExamplesHigh();
    var r := ChunksOf([20, 30, 60, 18]);
    assert |r| == 4 && r[0] == BinDigits(20, 8) && r[1] == BinDigits(30, 8);
    assert r[2] == BinDigits(60, 8) && r[3] == BinDigits(18, 8);
  }
}
