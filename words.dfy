// Byte and 32-bit word layer of the vector files.
// A vector file is read with `fread` into an `int`/`float` buffer on a
// little-endian host, so every four bytes of the file become one 32-bit
// word. Words are kept as the value the C `int` view gives them (signed,
// two's complement); a float payload is the same 32-bit pattern and is
// never interpreted by the harness.
module FileWords {

  newtype byte = x: int | 0 <= x < 0x100

  newtype int32 = x: int | -0x8000_0000 <= x < 0x8000_0000

  const TwoTo32: int := 0x1_0000_0000

  /** The unsigned value of four little-endian bytes. */
  function Unsigned(b0: byte, b1: byte, b2: byte, b3: byte): (u: int)
    ensures 0 <= u < TwoTo32
  {
    b0 as int + 0x100 * b1 as int + 0x1_0000 * b2 as int + 0x100_0000 * b3 as int
  }

  /** The word four little-endian bytes hold, read as a C `int`. */
  function WordOf(b0: byte, b1: byte, b2: byte, b3: byte): int32
  {
    var u := Unsigned(b0, b1, b2, b3);
    if u < 0x8000_0000 then u as int32 else (u - TwoTo32) as int32
  }

  /** What `fread` puts in a 32-bit buffer: one word per whole group of four bytes. */
  function Words(file: seq<byte>): (ws: seq<int32>)
    ensures |ws| == |file| / 4
    decreases |file|
  {
    if |file| < 4 then []
    else [WordOf(file[0], file[1], file[2], file[3])] + Words(file[4..])
  }

  /** The four little-endian bytes of a word: the inverse of WordOf. */
  function BytesOfWord(w: int32): (bs: seq<byte>)
    ensures |bs| == 4
    ensures WordOf(bs[0], bs[1], bs[2], bs[3]) == w
  {
    var u := if w < 0 then w as int + TwoTo32 else w as int;
    var q0 := u / 0x100;
    var q1 := q0 / 0x100;
    assert u == u % 0x100 + 0x100 * (q0 % 0x100 + 0x100 * (q1 % 0x100 + 0x100 * (q1 / 0x100)));
    [(u % 0x100) as byte, (q0 % 0x100) as byte, (q1 % 0x100) as byte, (q1 / 0x100) as byte]
  }

  /** The byte image of a word sequence as it is stored in a file. */
  function Bytes(ws: seq<int32>): (file: seq<byte>)
    ensures |file| == 4 * |ws|
  {
    if ws == [] then [] else BytesOfWord(ws[0]) + Bytes(ws[1..])
  }

  /** Reading the bytes of a word sequence back gives the same words. */
  lemma {:induction false} WordsOfBytes(ws: seq<int32>)
    ensures Words(Bytes(ws)) == ws
  {
    if ws != [] {
      var file := Bytes(ws);
      assert file[..4] == BytesOfWord(ws[0]);
      assert file[4..] == Bytes(ws[1..]);
      WordsOfBytes(ws[1..]);
    }
  }

  /** Writing the word four bytes hold gives back those four bytes: the
      byte-to-word step of a read loses nothing. */
  lemma WordBytes(b0: byte, b1: byte, b2: byte, b3: byte)
    ensures BytesOfWord(WordOf(b0, b1, b2, b3)) == [b0, b1, b2, b3]
  {
    var u := Unsigned(b0, b1, b2, b3);
    var q1 := b2 as int + 0x100 * b3 as int;
    var q0 := b1 as int + 0x100 * q1;
    Digit(u, b0 as int, q0);
    Digit(q0, b1 as int, q1);
    Digit(q1, b2 as int, b3 as int);
  }

  /** The last digit and the rest of a number written in base 256. */
  lemma Digit(a: int, r: int, q: int)
    requires 0 <= r < 0x100 && a == r + 0x100 * q
    ensures a % 0x100 == r && a / 0x100 == q
  {
  }

  /** Writing back the words read from a file of whole words gives the file. */
  lemma {:induction false} BytesOfWords(file: seq<byte>)
    requires |file| % 4 == 0
    ensures Bytes(Words(file)) == file
    decreases |file|
  {
    if file != [] {
      var rest := file[4..];
      var ws := Words(rest);
      var w := WordOf(file[0], file[1], file[2], file[3]);
      assert Words(file) == [w] + ws;
      assert ([w] + ws)[1..] == ws;
      BytesOfWords(rest);
      WordBytes(file[0], file[1], file[2], file[3]);
      assert file == [file[0], file[1], file[2], file[3]] + rest;
    }
  }
}
