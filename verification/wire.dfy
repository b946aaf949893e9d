/**
 * The unit of the coverage report: 32-bit words stored in the byte order of
 * the machine that wrote them, plus the three sentinel words that delimit
 * the report's sections.
 */
module Wire {

  const WORD_MOD: int := 0x1_0000_0000

  type byte = x: int | 0 <= x < 256
  type word = x: int | 0 <= x < 0x1_0000_0000
  type Bytes = seq<byte>

  /** Starts every test's hit list. */
  const ENTRY: word := 0xfefefeaa
  /** Ends the last hit list and starts the block -> function-index table. */
  const INDICES: word := 0xfefefeab
  /** Ends the index table and starts the (index, name) pairs. */
  const NAMES: word := 0xfefefeac

  datatype Endian = Big | Little

  /** A C++ `size_t` passed to `write(uint32_t)`: truncated to its low 32 bits. */
  function ToWord(n: nat): (w: word)
    ensures n < WORD_MOD ==> w == n
    ensures w < WORD_MOD
  {
    n % WORD_MOD
  }

  function ToWords(ns: seq<nat>): (ws: seq<word>)
    ensures |ws| == |ns|
    ensures forall i | 0 <= i < |ns| :: ws[i] == ToWord(ns[i])
  {
    seq(|ns|, i requires 0 <= i < |ns| => ToWord(ns[i]))
  }

  function BigEndianBytes(w: word): (b: Bytes)
    ensures |b| == 4
  {
    [w / 0x100_0000, (w / 0x1_0000) % 256, (w / 256) % 256, w % 256]
  }

  function Reverse4(b: Bytes): (r: Bytes)
    requires |b| == 4
    ensures |r| == 4
  {
    [b[3], b[2], b[1], b[0]]
  }

  /** The four bytes that store `w` in byte order `e`. */
  function WordBytes(e: Endian, w: word): (b: Bytes)
    ensures |b| == 4
  {
    match e
    case Big => BigEndianBytes(w)
    case Little => Reverse4(BigEndianBytes(w))
  }

  /** The word that four bytes store in byte order `e` (`struct.unpack(">I")` / `"<I"`). */
  function Unpack(e: Endian, b: Bytes): (w: word)
    requires |b| == 4
  {
    match e
    case Big => (b[0] as int) * 0x100_0000 + (b[1] as int) * 0x1_0000 + (b[2] as int) * 256 + b[3] as int
    case Little => (b[3] as int) * 0x100_0000 + (b[2] as int) * 0x1_0000 + (b[1] as int) * 256 + b[0] as int
  }

  lemma UnpackWordBytes(e: Endian, w: word)
    ensures Unpack(e, WordBytes(e, w)) == w
  {
    var q1 := w / 256;
    var q2 := q1 / 256;
    assert w == q1 * 256 + w % 256;
    assert q1 == q2 * 256 + q1 % 256;
    assert q2 == (q2 / 256) * 256 + q2 % 256;
    assert w / 0x1_0000 == q2;
    assert w / 0x100_0000 == q2 / 256;
  }

  lemma WordBytesUnpack(e: Endian, b: Bytes)
    requires |b| == 4
    ensures WordBytes(e, Unpack(e, b)) == b
  {
    var c := if e.Big? then b else Reverse4(b);
    var w: int := (c[0] as int) * 0x100_0000 + (c[1] as int) * 0x1_0000 + (c[2] as int) * 256 + c[3] as int;
    assert Unpack(e, b) == w;
    var q1: int := (c[0] as int) * 0x1_0000 + (c[1] as int) * 256 + c[2] as int;
    var q2: int := (c[0] as int) * 256 + c[1] as int;
    assert w == q1 * 256 + c[3];
    assert w / 256 == q1 && w % 256 == c[3];
    assert q1 == q2 * 256 + c[2];
    assert q1 / 256 == q2 && q1 % 256 == c[2];
    assert q2 / 256 == c[0] && q2 % 256 == c[1];
    assert w / 0x1_0000 == q2;
    assert w / 0x100_0000 == c[0];
    assert BigEndianBytes(w) == c;
  }

  /** Bytes encoding `w` as a word are exactly the bytes of `w`: encoding is injective. */
  lemma WordBytesInjective(e: Endian, v: word, w: word)
    requires WordBytes(e, v) == WordBytes(e, w)
    ensures v == w
  {
    UnpackWordBytes(e, v);
    UnpackWordBytes(e, w);
  }

  /** A sequence of words written one after the other. */
  function WordsBytes(e: Endian, ws: seq<word>): (b: Bytes)
    ensures |b| == 4 * |ws|
  {
    if ws == [] then [] else WordBytes(e, ws[0]) + WordsBytes(e, ws[1..])
  }

  /** Writing one word in front of a run of words. */
  lemma WordsBytesCons(e: Endian, w: word, ws: seq<word>)
    ensures WordsBytes(e, [w] + ws) == WordBytes(e, w) + WordsBytes(e, ws)
  {
    assert ([w] + ws)[1..] == ws;
  }

  /** The first word of a run, split off in front of what follows the run. */
  lemma WordsBytesSplitFirst(e: Endian, ws: seq<word>, tail: Bytes)
    requires ws != []
    ensures WordsBytes(e, ws) + tail == WordBytes(e, ws[0]) + (WordsBytes(e, ws[1..]) + tail)
  {
    assert ws == [ws[0]] + ws[1..];
    WordsBytesCons(e, ws[0], ws[1..]);
    ConcatAssoc(WordBytes(e, ws[0]), WordsBytes(e, ws[1..]), tail);
  }

  /** The i-th four bytes of a run of words are the bytes of its i-th word. */
  lemma {:induction false} WordsBytesAt(e: Endian, ws: seq<word>, i: nat)
    requires i < |ws|
    ensures WordsBytes(e, ws)[4 * i..4 * i + 4] == WordBytes(e, ws[i])
    decreases i
  {
    if i > 0 {
      WordsBytesAt(e, ws[1..], i - 1);
      assert WordsBytes(e, ws)[4 * i..4 * i + 4] == WordsBytes(e, ws[1..])[4 * (i - 1)..4 * (i - 1) + 4];
    }
  }

  /** The same, with more bytes following the run. */
  lemma WordsBytesThenAt(e: Endian, ws: seq<word>, tail: Bytes, i: nat)
    requires i < |ws|
    ensures (WordsBytes(e, ws) + tail)[4 * i..4 * i + 4] == WordBytes(e, ws[i])
  {
    WordsBytesAt(e, ws, i);
    assert (WordsBytes(e, ws) + tail)[4 * i..4 * i + 4] == WordsBytes(e, ws)[4 * i..4 * i + 4];
  }

  /** Two word-aligned byte runs put together are word-aligned. */
  lemma AlignedConcat(a: Bytes, b: Bytes)
    requires |a| % 4 == 0 && |b| % 4 == 0
    ensures |a + b| % 4 == 0
  {
  }

  lemma ConcatAssoc<T>(a: seq<T>, b: seq<T>, c: seq<T>)
    ensures a + b + c == a + (b + c)
  {
  }

  lemma ConcatAssoc4<T>(a: seq<T>, b: seq<T>, c: seq<T>, d: seq<T>)
    ensures a + b + c + d == a + (b + c + d)
  {
    ConcatAssoc(a, b, c);
    ConcatAssoc(a, b + c, d);
  }

  lemma {:induction false} WordsBytesAppend(e: Endian, a: seq<word>, b: seq<word>)
    ensures WordsBytes(e, a + b) == WordsBytes(e, a) + WordsBytes(e, b)
  {
    if a == [] {
      assert a + b == b;
    } else {
      assert (a + b)[1..] == a[1..] + b;
      WordsBytesAppend(e, a[1..], b);
    }
  }

  /** The words a byte stream holds, read from the front; fewer than four bytes remain after them. */
  function WordsOf(e: Endian, s: Bytes): (ws: seq<word>)
    ensures |ws| == |s| / 4
    ensures WordsBytes(e, ws) == s[..4 * |ws|]
    decreases |s|
  {
    if |s| < 4 then []
    else
      var ws := [Unpack(e, s[..4])] + WordsOf(e, s[4..]);
      WordBytesUnpack(e, s[..4]);
      assert s[..4 * |ws|] == s[..4] + s[4..][..4 * (|ws| - 1)];
      ws
  }

  /** Every byte stream is some words followed by a tail shorter than one word. */
  lemma Decompose(e: Endian, s: Bytes)
    ensures s == WordsBytes(e, WordsOf(e, s)) + s[4 * (|s| / 4)..]
    ensures |s[4 * (|s| / 4)..]| < 4
  {
    var ws := WordsOf(e, s);
    assert s == s[..4 * |ws|] + s[4 * |ws|..];
  }
}
