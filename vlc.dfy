/** The container codec of lib/compression/vlc/vlc.go: text is encoded through a code
    table into a '0'/'1' string, and that string is stored in a self-describing container
    (table length, bit length, table bytes, packed payload) that parses back exactly. */
module Vlc {
  import opened Binary
  import opened Chunks

  /** `table.EncodingTable` as this file uses it: each character's code, as '0'/'1' text. */
  type EncodingTable = map<char, string>

  /** The ways the source stops: a panic or, for the table, `log.Fatal`. */
  datatype Error =
    | UnknownCharacter(ch: char)  // `bin` panics on a character with no code
    | BadChunk(cause: ParseError) // `BinaryChunk.Byte` panics on a chunk it cannot parse
    | SliceOutOfRange             // a slice bound beyond the data panics
    | TableDecodeFailed           // `decodeTable` ends the process

  /** `chunkSize`: bits per packed byte. */
  const ChunkSize: nat := 8

  const TwoTo32: nat := 0x1_0000_0000

  // ---------------------------------------------------------------------------
  // Headers

  /** `binary.BigEndian.Uint32`: the first four bytes, most significant first. */
  function Uint32(b: seq<byte>): (r: nat)
    requires |b| >= 4
    ensures r < TwoTo32
  {
    var b0: int, b1: int, b2: int, b3: int := b[0], b[1], b[2], b[3];
    ((b0 * 256 + b1) * 256 + b2) * 256 + b3
  }

  /** `encodeInt`: `uint32(num)` keeps num modulo 2^32 (two's complement for negatives),
      written as four big-endian bytes. */
  function EncodeInt(num: int): (r: seq<byte>)
    ensures |r| == 4
    ensures Uint32(r) == num % TwoTo32
  {
    var m := num % TwoTo32;
    var m1 := m / 256;
    var m2 := m1 / 256;
    assert m2 / 256 < 256;
    [m2 / 256, m2 % 256, m1 % 256, m % 256]
  }

  /** Every 4-byte header is the encoding of the number it denotes. */
  lemma EncodeIntOfUint32(b: seq<byte>)
    requires |b| == 4
    ensures EncodeInt(Uint32(b)) == b
  {
    var n := Uint32(b);
    var b0: int, b1: int, b2: int, b3: int := b[0], b[1], b[2], b[3];
    var m2: int := b0 * 256 + b1;
    var m1: int := m2 * 256 + b2;
    assert n == m1 * 256 + b3;
    SmallMod(n);
    ByteDigit(m1, b3);
    ByteDigit(m2, b2);
    ByteDigit(b0, b1);
    assert EncodeInt(n) == [b0, b1, b2, b3];
    assert b == [b0, b1, b2, b3];
  }

  /** Division by 256 recovers the high part and the low byte of q * 256 + d. */
  lemma ByteDigit(q: int, d: int)
    requires 0 <= d < 256
    ensures (q * 256 + d) / 256 == q && (q * 256 + d) % 256 == d
  {
  }

  // ---------------------------------------------------------------------------
  // Encoding text through a table

  /** `bin`: the character's code, or a panic when the table has none. */
  function Bin(ch: char, tbl: EncodingTable): (r: Result<string, Error>)
    ensures r.Ok? <==> ch in tbl
    ensures r.Ok? ==> r.value == tbl[ch]
    ensures r.Err? ==> r.error == UnknownCharacter(ch)
  {
    if ch in tbl then Ok(tbl[ch]) else Err(UnknownCharacter(ch))
  }

  predicate AllKnown(str: string, tbl: EncodingTable) {
    forall i :: 0 <= i < |str| ==> str[i] in tbl
  }

  /** The code of each character of `str`, in order. */
  function CodeList(str: string, tbl: EncodingTable): (r: seq<string>)
    requires AllKnown(str, tbl)
    ensures |r| == |str| && forall i :: 0 <= i < |str| ==> r[i] == tbl[str[i]]
  {
    if str == [] then [] else CodeList(str[..|str| - 1], tbl) + [tbl[str[|str| - 1]]]
  }

  /** Position of the first character of `str` that the table does not know. */
  function FirstUnknown(str: string, tbl: EncodingTable): (r: nat)
    requires !AllKnown(str, tbl)
    ensures r < |str| && str[r] !in tbl
    ensures forall j :: 0 <= j < r ==> str[j] in tbl
  {
    if str[0] !in tbl then 0 else 1 + FirstUnknown(str[1..], tbl)
  }

  /** What `encodeBin` computes: the codes written one after another, or the panic of the
      first character without a code. */
  function Encoded(str: string, tbl: EncodingTable): (r: Result<string, Error>)
    ensures r.Ok? <==> AllKnown(str, tbl)
    ensures r.Err? ==> exists i :: 0 <= i < |str| && r.error == UnknownCharacter(str[i]) && str[i] !in tbl
  {
    if AllKnown(str, tbl) then Ok(Flatten(CodeList(str, tbl)))
    else Err(UnknownCharacter(str[FirstUnknown(str, tbl)]))
  }

  /** Encoding a concatenation is concatenating the encodings. */
  lemma EncodedAppend(a: string, b: string, tbl: EncodingTable)
    requires AllKnown(a, tbl) && AllKnown(b, tbl)
    ensures AllKnown(a + b, tbl)
    ensures Encoded(a + b, tbl).value == Encoded(a, tbl).value + Encoded(b, tbl).value
  {
    assert AllKnown(a + b, tbl) by {
      forall i | 0 <= i < |a + b| ensures (a + b)[i] in tbl {
        if i >= |a| { assert (a + b)[i] == b[i - |a|]; }
      }
    }
    assert CodeList(a + b, tbl) == CodeList(a, tbl) + CodeList(b, tbl);
    FlattenAppend(CodeList(a, tbl), CodeList(b, tbl));
  }

  /** The encoding is as long as the codes of its characters together, and is a '0'/'1'
      string when every code is. */
  lemma EncodedShape(str: string, tbl: EncodingTable)
    requires AllKnown(str, tbl)
    ensures |Encoded(str, tbl).value| == TotalLength(CodeList(str, tbl))
    ensures (forall c :: c in tbl ==> IsBinary(tbl[c])) ==> IsBinary(Encoded(str, tbl).value)
  {
    FlattenLength(CodeList(str, tbl));
    if forall c :: c in tbl ==> IsBinary(tbl[c]) {
      FlattenBinary(CodeList(str, tbl));
    }
  }

  /** `encodeBin`: each character's code appended to a builder; `bin` panics on the first
      character the table lacks. */
  method EncodeBin(str: string, tbl: EncodingTable) returns (r: Result<string, Error>)
    ensures r == Encoded(str, tbl)
  {
    var buf := "";
    for i := 0 to |str|
      invariant AllKnown(str[..i], tbl)
      invariant buf == Flatten(CodeList(str[..i], tbl))
    {
      var code := Bin(str[i], tbl);
      if code.Err? {
        EncodedStops(str, tbl, i);
        return Err(code.error);
      }
      EncodedStep(str, tbl, i);
      buf := buf + code.value;
    }
    assert str[..|str|] == str;
    return Ok(buf);
  }

  /** One more known character appends its code to the encoding of the prefix. */
  lemma EncodedStep(str: string, tbl: EncodingTable, i: nat)
    requires i < |str| && AllKnown(str[..i], tbl) && str[i] in tbl
    ensures AllKnown(str[..i + 1], tbl)
    ensures Flatten(CodeList(str[..i + 1], tbl)) == Flatten(CodeList(str[..i], tbl)) + tbl[str[i]]
  {
    assert str[..i + 1] == str[..i] + [str[i]];
    assert str[..i + 1][..i] == str[..i];
    assert CodeList(str[..i + 1], tbl) == CodeList(str[..i], tbl) + [tbl[str[i]]];
    FlattenAppend(CodeList(str[..i], tbl), [tbl[str[i]]]);
    assert Flatten([tbl[str[i]]]) == [] + tbl[str[i]];
  }

  /** The first unknown character decides the failure of the whole encoding. */
  lemma EncodedStops(str: string, tbl: EncodingTable, i: nat)
    requires i < |str| && AllKnown(str[..i], tbl) && str[i] !in tbl
    ensures Encoded(str, tbl) == Err(UnknownCharacter(str[i]))
  {
    assert !AllKnown(str, tbl);
    forall j | 0 <= j < i ensures str[j] in tbl {
      assert str[..i][j] == str[j];
    }
    assert FirstUnknown(str, tbl) == i;
  }

  // ---------------------------------------------------------------------------
  // The container

  /** The container `buildEndocdedFile` writes for serialised table `tableBytes` and
      bit string `data`. */
  function EncodedFile(tableBytes: seq<byte>, data: string): (r: Result<seq<byte>, Error>)
    ensures r.Ok? <==> IsBinary(data)
    ensures r.Ok? ==>
      && |r.value| == 8 + |tableBytes| + (|data| + 7) / 8
      && Uint32(r.value[..4]) == |tableBytes| % TwoTo32
      && Uint32(r.value[4..8]) == |data| % TwoTo32
      && r.value[8..8 + |tableBytes|] == tableBytes
      && BytesOf(Split(data, ChunkSize)).Ok?
      && r.value[8 + |tableBytes|..] == BytesOf(Split(data, ChunkSize)).value
  {
    PackOkIffBinary(data);
    SplitShape(data, ChunkSize);
    match BytesOf(Split(data, ChunkSize))
    case Err(e) => Err(BadChunk(e))
    case Ok(payload) =>
      var file := EncodeInt(|tableBytes|) + EncodeInt(|data|) + tableBytes + payload;
      assert file[..4] == EncodeInt(|tableBytes|);
      assert file[4..8] == EncodeInt(|data|);
      Ok(file)
  }

  /** `buildEndocdedFile`: the table length, the bit count, the table bytes and the packed
      bits, written into one buffer in that order. `serialize` stands for the gob
      `encodeTable`. */
  method BuildEncodedFile(serialize: EncodingTable -> seq<byte>, tbl: EncodingTable, data: string)
    returns (r: Result<seq<byte>, Error>)
    ensures r == EncodedFile(serialize(tbl), data)
  {
    var tableBytes := serialize(tbl);
    var buf: seq<byte> := [];
    buf := buf + EncodeInt(|tableBytes|);
    buf := buf + EncodeInt(|data|);
    buf := buf + tableBytes;
    var chunks := SplitByChunks(data, ChunkSize);
    var payload := Bytes(chunks);
    if payload.Err? {
      return Err(BadChunk(payload.error));
    }
    buf := buf + payload.value;
    assert buf == EncodeInt(|tableBytes|) + EncodeInt(|data|) + tableBytes + payload.value;
    return Ok(buf);
  }

  /** `parseFile`: two 4-byte headers, `tableSize` table bytes handed to `decodeTable`
      (the gob decoder), the rest unpacked to bits and cut to `dataSize`. Each slice that
      runs past the data panics in the source. */
  function ParseFile(file: seq<byte>, decodeTable: seq<byte> -> Option<EncodingTable>)
    : (r: Result<(EncodingTable, string), Error>)
    ensures |file| < 8 ==> r == Err(SliceOutOfRange)
    ensures |file| >= 8 ==>
      var tableSize, dataSize := Uint32(file[..4]), Uint32(file[4..8]);
      && (r.Ok? <==>
           && 8 + tableSize <= |file|
           && decodeTable(file[8..8 + tableSize]).Some?
           && dataSize <= 8 * (|file| - 8 - tableSize))
      && (r.Ok? ==>
           && r.value.0 == decodeTable(file[8..8 + tableSize]).value
           && |r.value.1| == dataSize
           && IsBinary(r.value.1))
  {
    if |file| < 4 then Err(SliceOutOfRange)
    else
      var tableSizeBinary, rest := file[..4], file[4..];
      if |rest| < 4 then Err(SliceOutOfRange)
      else
        var dataSizeBinary, rest' := rest[..4], rest[4..];
        var tableSize := Uint32(tableSizeBinary);
        var dataSize := Uint32(dataSizeBinary);
        assert dataSizeBinary == file[4..8] && rest' == file[8..];
        if tableSize > |rest'| then Err(SliceOutOfRange)
        else
          var tblBinary, payload := rest'[..tableSize], rest'[tableSize..];
          assert tblBinary == file[8..8 + tableSize];
          match decodeTable(tblBinary)
          case None => Err(TableDecodeFailed)
          case Some(tbl) =>
            var body := Flatten(ChunksOf(payload));
            UnpackShape(payload);
            if dataSize > |body| then Err(SliceOutOfRange)
            else
              assert IsBinary(body[..dataSize]) by {
                forall i | 0 <= i < dataSize ensures body[..dataSize][i] == '0' || body[..dataSize][i] == '1' {
                  assert body[..dataSize][i] == body[i];
                }
              }
              Ok((tbl, body[..dataSize]))
  }

  /** The successful result of `parseFile`, read off its slices. */
  lemma ParseFileOk(file: seq<byte>, decodeTable: seq<byte> -> Option<EncodingTable>,
                    tableSize: nat, dataSize: nat)
    requires |file| >= 8 && Uint32(file[..4]) == tableSize && Uint32(file[4..8]) == dataSize
    requires 8 + tableSize <= |file| && decodeTable(file[8..8 + tableSize]).Some?
    requires dataSize <= |Flatten(ChunksOf(file[8 + tableSize..]))|
    ensures ParseFile(file, decodeTable)
         == Ok((decodeTable(file[8..8 + tableSize]).value,
                Flatten(ChunksOf(file[8 + tableSize..]))[..dataSize]))
  {
    FileSlices(file, tableSize);
  }

  /** The slices `parseFile` takes, in terms of offsets into the whole file. */
  lemma FileSlices(file: seq<byte>, tableSize: nat)
    requires 8 + tableSize <= |file|
    ensures file[4..][..4] == file[4..8] && file[4..][4..] == file[8..]
    ensures file[8..][..tableSize] == file[8..8 + tableSize]
    ensures file[8..][tableSize..] == file[8 + tableSize..]
  {
  }

  /** `parseFile` undoes `buildEndocdedFile`: for a '0'/'1' string and a table whose
      serialised form the decoder reads back, both lengths below 2^32, parsing the
      container hands the decoder the same table bytes and returns exactly the bits. */
  lemma ParseEncodedFile(serialize: EncodingTable -> seq<byte>,
                         decodeTable: seq<byte> -> Option<EncodingTable>,
                         tbl: EncodingTable, data: string)
    requires IsBinary(data) && |data| < TwoTo32 && |serialize(tbl)| < TwoTo32
    requires decodeTable(serialize(tbl)) == Some(tbl)
    ensures EncodedFile(serialize(tbl), data).Ok?
    ensures ParseFile(EncodedFile(serialize(tbl), data).value, decodeTable) == Ok((tbl, data))
  {
    var tb := serialize(tbl);
    PayloadRoundTrip(data);
    EncodedFileHeaders(tb, data);
    var file := EncodedFile(tb, data).value;
    assert file[8..8 + |tb|] == tb;
    var bits := Flatten(ChunksOf(file[8 + |tb|..]));
    assert file[8 + |tb|..] == BytesOf(Split(data, ChunkSize)).value;
    assert |data| <= |bits| && bits[..|data|] == data;
    ParseFileOk(file, decodeTable, |tb|, |data|);
  }

  /** Lengths below 2^32 are read back from the headers unchanged. */
  lemma EncodedFileHeaders(tableBytes: seq<byte>, data: string)
    requires IsBinary(data) && |data| < TwoTo32 && |tableBytes| < TwoTo32
    ensures EncodedFile(tableBytes, data).Ok?
    ensures var file := EncodedFile(tableBytes, data).value;
            Uint32(file[..4]) == |tableBytes| && Uint32(file[4..8]) == |data|
  {
    SmallMod(|tableBytes|);
    SmallMod(|data|);
  }

  lemma SmallMod(n: nat)
    requires n < TwoTo32
    ensures n % TwoTo32 == n
  {
  }

  /** The payload half of the round trip: the packed bytes of a '0'/'1' string unpack
      to at least as many bits, the first of which are the string. */
  lemma PayloadRoundTrip(data: string)
    requires IsBinary(data)
    ensures BytesOf(Split(data, ChunkSize)).Ok?
    ensures var bits := Flatten(ChunksOf(BytesOf(Split(data, ChunkSize)).value));
            |data| <= |bits| && bits[..|data|] == data
  {
    var chunks := Split(data, ChunkSize);
    SplitShape(data, ChunkSize);
    SplitBinary(data, ChunkSize);
    ChunksOfBytesOf(chunks);
    SplitJoin(data, ChunkSize);
  }

  /** Dropping the last byte of a container whose payload is not empty always fails:
      the declared bit count no longer fits in the unpacked bits. */
  lemma TruncatedFileFails(tableBytes: seq<byte>, data: string,
                           decodeTable: seq<byte> -> Option<EncodingTable>)
    requires IsBinary(data) && 0 < |data| < TwoTo32 && |tableBytes| < TwoTo32
    ensures EncodedFile(tableBytes, data).Ok?
    ensures var file := EncodedFile(tableBytes, data).value;
            ParseFile(file[..|file| - 1], decodeTable).Err?
  {
    EncodedFileHeaders(tableBytes, data);
    var file := EncodedFile(tableBytes, data).value;
    var n := (|data| + 7) / 8;
    assert |file| == 8 + |tableBytes| + n;
    var cut := file[..|file| - 1];
    assert cut[..4] == file[..4] && cut[4..8] == file[4..8];
    assert |cut| - 8 - |tableBytes| == n - 1;
    assert 8 * (n - 1) < |data|;
  }

  // ---------------------------------------------------------------------------
  // Restoring capitals

  /** `unicode.ToUpper`, on ASCII letters. */
  function ToUpper(c: char): char {
    if 'a' <= c <= 'z' then (c as int - 32) as char else c
  }

  function ToLower(c: char): char {
    if 'A' <= c <= 'Z' then (c as int + 32) as char else c
  }

  /** What `exportText` computes: "!" followed by a character becomes that character in
      upper case, a final lone "!" is dropped, everything else is copied. */
  function Exported(s: string): (r: string)
    ensures |r| <= |s|
    decreases |s|
  {
    if s == [] then ""
    else if s[0] == '!' then (if |s| == 1 then "" else [ToUpper(s[1])] + Exported(s[2..]))
    else [s[0]] + Exported(s[1..])
  }

  /** `exportText`: one pass with an `isCapital` flag set by "!" and cleared by the next
      character, which is written upper-cased. */
  method ExportText(str: string) returns (r: string)
    ensures r == Exported(str)
  {
    var buf := "";
    var isCapital := false;
    for i := 0 to |str|
      invariant !isCapital ==> buf + Exported(str[i..]) == Exported(str)
      invariant isCapital ==> 0 < i && str[i - 1] == '!' && buf + Exported(str[i - 1..]) == Exported(str)
    {
      if isCapital {
        ExportedCapitalStep(str, i - 1);
        Advance(buf, [ToUpper(str[i])], Exported(str[i + 1..]));
        buf := buf + [ToUpper(str[i])];
        isCapital := false;
        continue;
      }
      if str[i] == '!' {
        isCapital := true;
        continue;
      } else {
        ExportedPlainStep(str, i);
        Advance(buf, [str[i]], Exported(str[i + 1..]));
        buf := buf + [str[i]];
      }
    }
    if isCapital {
      assert str[|str| - 1..] == "!";
    }
    r := buf;
  }

  lemma Advance(buf: string, out: string, rest: string)
    ensures (buf + out) + rest == buf + (out + rest)
  {
  }

  /** A character that is not "!" is copied. */
  lemma ExportedPlainStep(s: string, i: nat)
    requires i < |s| && s[i] != '!'
    ensures Exported(s[i..]) == [s[i]] + Exported(s[i + 1..])
  {
    assert s[i..][1..] == s[i + 1..];
  }

  /** "!" and the character after it become that character in upper case. */
  lemma ExportedCapitalStep(s: string, i: nat)
    requires i + 1 < |s| && s[i] == '!'
    ensures Exported(s[i..]) == [ToUpper(s[i + 1])] + Exported(s[i + 2..])
  {
    assert s[i..][2..] == s[i + 2..];
  }

  /** Text without "!" is exported unchanged. */
  lemma {:induction false} ExportedWithoutMarks(s: string)
    requires forall i :: 0 <= i < |s| ==> s[i] != '!'
    ensures Exported(s) == s
  {
    if s != [] {
      ExportedWithoutMarks(s[1..]);
    }
  }

  /** The marking `exportText` undoes (`prepareText`, which is not part of this model,
      reconstructed from the comment above `exportText`): each ASCII capital letter written
      as "!" and the letter in lower case. */
  function Marked(t: string): (r: string)
    ensures |r| >= |t|
  {
    if t == [] then ""
    else if 'A' <= t[0] <= 'Z' then ['!', ToLower(t[0])] + Marked(t[1..])
    else [t[0]] + Marked(t[1..])
  }

  /** Exporting marked text gives the original text back. */
  lemma {:induction false} ExportedMarked(t: string)
    requires forall i :: 0 <= i < |t| ==> t[i] != '!'
    ensures Exported(Marked(t)) == t
  {
    if t != [] {
      ExportedMarked(t[1..]);
      var m := Marked(t);
      if 'A' <= t[0] <= 'Z' {
        assert m[2..] == Marked(t[1..]);
      } else {
        assert m[1..] == Marked(t[1..]);
      }
    }
  }

  lemma {:induction false} MarkedWithoutCapitals(t: string)
    requires forall i :: 0 <= i < |t| ==> !('A' <= t[i] <= 'Z')
    ensures Marked(t) == t
  {
    if t != [] {
      MarkedWithoutCapitals(t[1..]);
    }
  }

  lemma {:induction false} MarkedAppend(a: string, b: string)
    ensures Marked(a + b) == Marked(a) + Marked(b)
  {
    if a != [] {
      assert (a + b)[1..] == a[1..] + b;
      MarkedAppend(a[1..], b);
    } else {
      assert a + b == b;
    }
  }

  /** A capital followed by text without capitals is marked once, at the front. */
  lemma MarkedCapital(c: char, rest: string)
    requires 'A' <= c <= 'Z'
    requires forall i :: 0 <= i < |rest| ==> !('A' <= rest[i] <= 'Z')
    ensures Marked([c] + rest) == ['!', ToLower(c)] + rest
  {
    assert ([c] + rest)[1..] == rest;
    MarkedWithoutCapitals(rest);
  }

  lemma MarkedWords()
    ensures Marked("My") == "!my" && Marked(" name is ") == " name is " && Marked("Ted") == "!ted"
  {
    MarkedMy();
    MarkedTed();
    MarkedNameIs();
  }

  lemma MarkedNameIs()
    ensures Marked(" name is ") == " name is "
  {
    MarkedWithoutCapitals(" name is ");
  }

  lemma MarkedMy()
    ensures Marked("My") == "!my"
  {
    MarkedCapital('M', "y");
    assert "My" == ['M'] + "y";
  }

  lemma MarkedTed()
    ensures Marked("Ted") == "!ted"
  {
    MarkedCapital('T', "ed");
    assert "Ted" == ['T'] + "ed";
  }

  lemma MarkedExample()
    ensures Marked("My" + " name is " + "Ted") == "!my" + " name is " + "!ted"
  {
    MarkedWords();
    MarkedAppend("My", " name is ");
    MarkedAppend("My" + " name is ", "Ted");
  }

  lemma ExportedExamplePieces()
    ensures Exported("!my" + " name is " + "!ted") == "My" + " name is " + "Ted"
  {
    MarkedExample();
    ExportedMarked("My" + " name is " + "Ted");
  }

  /** The example in the comment on `exportText`. */
  lemma ExportedExample()
    ensures Exported("!my name is !ted") == "My name is Ted"
  {
    ExportedExamplePieces();
    ExampleSpelling();
  }

  lemma ExampleSpelling()
    ensures "!my" + " name is " + "!ted" == "!my name is !ted"
    ensures "My" + " name is " + "Ted" == "My name is Ted"
  {
  }
}
