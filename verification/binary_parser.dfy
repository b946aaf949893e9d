/**
 * The endian-aware word reader the report decoder is built on: one word at a
 * time in the byte order fixed by the report's first word, and strings stored
 * as a word count followed by NUL-padded bytes.
 */
module BinaryParser {
  import opened Wrappers
  import opened Wire

  /** Why a read stopped: fewer bytes left than a word, or a first word that is no ENTRY. */
  datatype ReadError = ShortRead | NoEntrySentinel

  function Min(a: int, b: int): int {
    if a <= b then a else b
  }

  /** Reads one word in byte order `e`; fails when fewer than four bytes remain. */
  function ReadUint32(e: Endian, s: Bytes): (r: Result<(word, Bytes), ReadError>)
    ensures r.Success? <==> |s| >= 4
    ensures r.Success? ==> s == WordBytes(e, r.value.0) + r.value.1
    ensures r.Failure? ==> r.error == ShortRead
  {
    if |s| < 4 then Failure(ShortRead)
    else
      WordBytesUnpack(e, s[..4]);
      assert s == s[..4] + s[4..];
      Success((Unpack(e, s[..4]), s[4..]))
  }

  /**
   * Reads the first word and adopts the byte order in which it is ENTRY,
   * big-endian tried first.
   */
  function TestEndian(s: Bytes): (r: Result<(Endian, Bytes), ReadError>)
    ensures |s| < 4 ==> r == Failure(ShortRead)
    ensures r.Success? ==> s == WordBytes(r.value.0, ENTRY) + r.value.1
    ensures r.Success? && r.value.0 == Little ==> Unpack(Big, s[..4]) != ENTRY
    ensures |s| >= 4 && r.Failure? ==>
      r.error == NoEntrySentinel && Unpack(Big, s[..4]) != ENTRY && Unpack(Little, s[..4]) != ENTRY
  {
    if |s| < 4 then Failure(ShortRead)
    else
      var data := s[..4];
      assert s == data + s[4..];
      if Unpack(Big, data) == ENTRY then
        WordBytesUnpack(Big, data);
        Success((Big, s[4..]))
      else if Unpack(Little, data) == ENTRY then
        WordBytesUnpack(Little, data);
        Success((Little, s[4..]))
      else
        Failure(NoEntrySentinel)
  }

  /** `bytes.rstrip(b"\0")`: drops every trailing NUL. */
  function RStripNul(b: Bytes): (r: Bytes)
    ensures r <= b
    ensures |r| > 0 ==> r[|r| - 1] != 0
    ensures forall i | |r| <= i < |b| :: b[i] == 0
    decreases |b|
  {
    if |b| > 0 && b[|b| - 1] == 0 then RStripNul(b[..|b| - 1]) else b
  }

  /**
   * Reads a word count n and then up to 4n bytes (a short read returns what
   * is left rather than failing), with trailing NULs stripped.
   */
  function ReadStr(e: Endian, s: Bytes): (r: Result<(Bytes, Bytes), ReadError>)
    ensures r.Success? <==> |s| >= 4
    ensures r.Failure? ==> r.error == ShortRead
    ensures r.Success? ==>
      var (str, rest) := r.value;
      && |s| - |rest| == 4 + Min(4 * Unpack(e, s[..4]), |s| - 4)
      && rest == s[|s| - |rest|..]
      && str <= s[4..|s| - |rest|]
      && (forall i | 4 + |str| <= i < |s| - |rest| :: s[i] == 0)
      && (|str| > 0 ==> str[|str| - 1] != 0)
  {
    var (n, s1) :- ReadUint32(e, s);
    assert s1 == s[4..];
    var got := Min(4 * n, |s1|);
    var str := RStripNul(s1[..got]);
    assert forall i | 4 + |str| <= i < 4 + got :: s[i] == s1[..got][i - 4];
    assert s1[..got] == s[4..4 + got];
    Success((str, s1[got..]))
  }

  /** A word written in byte order `e` reads back as itself, leaving what follows. */
  lemma ReadUint32Word(e: Endian, w: word, rest: Bytes)
    ensures ReadUint32(e, WordBytes(e, w) + rest) == Success((w, rest))
  {
    var s := WordBytes(e, w) + rest;
    WordBytesInjective(e, ReadUint32(e, s).value.0, w);
    assert s[4..] == rest;
  }

  /** A string whose payload is all there reads back as the payload without its trailing NULs. */
  lemma ReadStrComplete(e: Endian, n: word, payload: Bytes, rest: Bytes)
    requires |payload| == 4 * n
    ensures ReadStr(e, WordBytes(e, n) + payload + rest) == Success((RStripNul(payload), rest))
  {
    var s := WordBytes(e, n) + payload + rest;
    UnpackWordBytes(e, n);
    assert s[..4] == WordBytes(e, n);
    assert s[4..] == payload + rest;
    assert s[4..][..4 * n] == payload;
    assert s[4..][4 * n..] == rest;
  }

  /** A stream starting with ENTRY in either byte order is detected as that byte order. */
  lemma TestEndianDetects(e: Endian, rest: Bytes)
    ensures TestEndian(WordBytes(e, ENTRY) + rest) == Success((e, rest))
  {
    var s := WordBytes(e, ENTRY) + rest;
    assert s[..4] == WordBytes(e, ENTRY);
    assert s[4..] == rest;
    UnpackWordBytes(e, ENTRY);
    if e == Little {
      assert WordBytes(Little, ENTRY) == [0xaa, 0xfe, 0xfe, 0xfe];
      assert Unpack(Big, s[..4]) == 0xaafefefe;
    }
  }
}
