/**
 * Decoder of the runtime's report: per-test hit lists delimited by ENTRY and
 * INDICES, then the global-block -> function-index table up to NAMES, then
 * (index, name) pairs until the first read that fails.
 */
module ReportParser {
  import opened Wrappers
  import opened Wire
  import opened BinaryParser

  /** Everything `ReportParser.read` returns, plus the byte order it adopted. */
  datatype Report = Report(endian: Endian, tests: seq<seq<word>>, table: seq<word>, names: map<word, Bytes>)

  // ---------------------------------------------------------------------
  // Section 1: per-test hit lists

  /** Collects words into `cur`; ENTRY closes it, INDICES closes it and the section. */
  function ReadTestsLoop(e: Endian, s: Bytes, cur: seq<word>, acc: seq<seq<word>>): (r: Result<(seq<seq<word>>, Bytes), ReadError>)
    ensures r.Success? ==> |r.value.0| > |acc| && |r.value.1| <= |s| - 4
    decreases |s|
  {
    var (token, rest) :- ReadUint32(e, s);
    if token == ENTRY then ReadTestsLoop(e, rest, [], acc + [cur])
    else if token == INDICES then Success((acc + [cur], rest))
    else ReadTestsLoop(e, rest, cur + [token], acc)
  }

  /** Detects the byte order from the first word, then reads the hit lists. */
  function ReadTests(s: Bytes): (r: Result<(Endian, seq<seq<word>>, Bytes), ReadError>)
    ensures r.Success? ==> |r.value.1| >= 1 && |s| >= 4 && s[..4] == WordBytes(r.value.0, ENTRY)
  {
    var (e, rest) :- TestEndian(s);
    assert s[..4] == WordBytes(e, ENTRY);
    var (tests, rest') :- ReadTestsLoop(e, rest, [], []);
    Success((e, tests, rest'))
  }

  /** Reference splitting of a word sequence at every `sep`; the separators are dropped. */
  function SplitOn(sep: word, ws: seq<word>): (parts: seq<seq<word>>)
    ensures |parts| >= 1
    decreases |ws|
  {
    if ws == [] then [[]]
    else
      var p := SplitOn(sep, ws[1..]);
      if ws[0] == sep then [[]] + p else [[ws[0]] + p[0]] + p[1..]
  }

  /** The inverse of `SplitOn`: parts glued back with `sep` between neighbours. */
  function JoinWith(sep: word, parts: seq<seq<word>>): (ws: seq<word>)
    requires |parts| >= 1
    decreases |parts|
  {
    if |parts| == 1 then parts[0] else parts[0] + [sep] + JoinWith(sep, parts[1..])
  }

  /** `cur` prepended to the first part. */
  function Prepend(cur: seq<word>, parts: seq<seq<word>>): seq<seq<word>>
    requires |parts| >= 1
  {
    [cur + parts[0]] + parts[1..]
  }

  function Count(x: word, ws: seq<word>): nat {
    if ws == [] then 0 else (if ws[0] == x then 1 else 0) + Count(x, ws[1..])
  }

  /** The words of `ws` other than `sep`, in order, duplicates kept. */
  function Without(sep: word, ws: seq<word>): seq<word> {
    if ws == [] then [] else (if ws[0] == sep then [] else [ws[0]]) + Without(sep, ws[1..])
  }

  function Flatten(parts: seq<seq<word>>): seq<word> {
    if parts == [] then [] else parts[0] + Flatten(parts[1..])
  }

  lemma {:induction false} SplitOnCount(sep: word, ws: seq<word>)
    ensures |SplitOn(sep, ws)| == Count(sep, ws) + 1
    decreases |ws|
  {
    if ws != [] {
      SplitOnCount(sep, ws[1..]);
    }
  }

  /** Every word of every part is a word of the input other than the separator. */
  lemma {:induction false} SplitOnParts(sep: word, ws: seq<word>)
    ensures forall k, i | 0 <= k < |SplitOn(sep, ws)| && 0 <= i < |SplitOn(sep, ws)[k]| ::
      SplitOn(sep, ws)[k][i] != sep && SplitOn(sep, ws)[k][i] in ws
    decreases |ws|
  {
    if ws != [] {
      SplitOnParts(sep, ws[1..]);
      var p := SplitOn(sep, ws[1..]);
      var parts := SplitOn(sep, ws);
      forall k, i | 0 <= k < |parts| && 0 <= i < |parts[k]|
        ensures parts[k][i] != sep && parts[k][i] in ws
      {
        if ws[0] == sep {
          assert parts[k][i] == p[k - 1][i];
        } else if k == 0 {
          if i > 0 {
            assert parts[k][i] == p[0][i - 1];
          }
        } else {
          assert parts[k][i] == p[k][i];
        }
      }
    }
  }

  lemma {:induction false} SplitOnFlatten(sep: word, ws: seq<word>)
    ensures Flatten(SplitOn(sep, ws)) == Without(sep, ws)
    decreases |ws|
  {
    if ws != [] {
      SplitOnFlatten(sep, ws[1..]);
      var p := SplitOn(sep, ws[1..]);
      if ws[0] == sep {
        assert Flatten([[]] + p) == [] + Flatten(p);
      } else {
        var q := [[ws[0]] + p[0]] + p[1..];
        assert q[1..] == p[1..];
        assert Flatten(p) == p[0] + Flatten(p[1..]);
        assert Flatten(q) == [ws[0]] + p[0] + Flatten(p[1..]);
      }
    }
  }

  lemma {:induction false} SplitOnPrefix(sep: word, a: seq<word>, rest: seq<word>)
    requires sep !in a
    ensures SplitOn(sep, a + rest) == Prepend(a, SplitOn(sep, rest))
    decreases |a|
  {
    if a == [] {
      assert a + rest == rest;
      var p := SplitOn(sep, rest);
      assert a + p[0] == p[0];
      assert p == [p[0]] + p[1..];
    } else {
      assert (a + rest)[1..] == a[1..] + rest;
      SplitOnPrefix(sep, a[1..], rest);
      assert [a[0]] + (a[1..] + SplitOn(sep, rest)[0]) == a + SplitOn(sep, rest)[0];
    }
  }

  /** Splitting undoes joining when no part holds the separator. */
  lemma {:induction false} SplitOnJoinWith(sep: word, parts: seq<seq<word>>)
    requires |parts| >= 1
    requires forall k | 0 <= k < |parts| :: sep !in parts[k]
    ensures SplitOn(sep, JoinWith(sep, parts)) == parts
    decreases |parts|
  {
    if |parts| == 1 {
      SplitOnPrefix(sep, parts[0], []);
      assert parts[0] + [] == parts[0];
    } else {
      var j := JoinWith(sep, parts[1..]);
      SplitOnJoinWith(sep, parts[1..]);
      assert parts[0] + [sep] + j == parts[0] + ([sep] + j);
      SplitOnPrefix(sep, parts[0], [sep] + j);
      assert ([sep] + j)[1..] == j;
      assert SplitOn(sep, [sep] + j) == [[]] + parts[1..];
      assert parts[0] + [] == parts[0];
      assert parts == [parts[0]] + parts[1..];
    }
  }

  /** One word of the hit-list section: ENTRY opens a new test, INDICES ends the section. */
  lemma ReadTestsLoopStep(e: Endian, w: word, s1: Bytes, cur: seq<word>, acc: seq<seq<word>>)
    ensures ReadTestsLoop(e, WordBytes(e, w) + s1, cur, acc)
         == if w == ENTRY then ReadTestsLoop(e, s1, [], acc + [cur])
            else if w == INDICES then Success((acc + [cur], s1))
            else ReadTestsLoop(e, s1, cur + [w], acc)
  {
    ReadUint32Word(e, w, s1);
  }

  lemma PrependEmpty(cur: seq<word>)
    ensures Prepend(cur, [[]]) == [cur]
  {
    var one: seq<seq<word>> := [[]];
    assert cur + one[0] == cur;
    assert one[1..] == [];
  }

  lemma PrependAfterEntry(cur: seq<word>, acc: seq<seq<word>>, p: seq<seq<word>>)
    requires |p| >= 1
    ensures acc + [cur] + Prepend([], p) == acc + Prepend(cur, [[]] + p)
  {
    assert [] + p[0] == p[0];
    assert Prepend([], p) == p;
    var q: seq<seq<word>> := [[]] + p;
    assert q[1..] == p && cur + q[0] == cur;
  }

  lemma PrependAfterWord(cur: seq<word>, w: word, acc: seq<seq<word>>, p: seq<seq<word>>)
    requires |p| >= 1
    ensures acc + Prepend(cur + [w], p) == acc + Prepend(cur, [[w] + p[0]] + p[1..])
  {
    assert cur + [w] + p[0] == cur + ([w] + p[0]);
  }

  lemma {:induction false} ReadTestsLoopFound(e: Endian, pre: seq<word>, rest: Bytes, cur: seq<word>, acc: seq<seq<word>>)
    requires INDICES !in pre
    ensures ReadTestsLoop(e, WordsBytes(e, pre + [INDICES]) + rest, cur, acc)
         == Success((acc + Prepend(cur, SplitOn(ENTRY, pre)), rest))
    decreases |pre|
  {
    var ws := pre + [INDICES];
    var s1 := WordsBytes(e, ws[1..]) + rest;
    WordsBytesSplitFirst(e, ws, rest);
    ReadTestsLoopStep(e, ws[0], s1, cur, acc);
    if pre == [] {
      assert s1 == rest;
      PrependEmpty(cur);
    } else {
      assert ws[1..] == pre[1..] + [INDICES];
      var p := SplitOn(ENTRY, pre[1..]);
      if pre[0] == ENTRY {
        ReadTestsLoopFound(e, pre[1..], rest, [], acc + [cur]);
        PrependAfterEntry(cur, acc, p);
      } else {
        ReadTestsLoopFound(e, pre[1..], rest, cur + [pre[0]], acc);
        PrependAfterWord(cur, pre[0], acc, p);
      }
    }
  }

  lemma {:induction false} ReadTestsLoopNotFound(e: Endian, ws: seq<word>, tail: Bytes, cur: seq<word>, acc: seq<seq<word>>)
    requires INDICES !in ws
    requires |tail| < 4
    ensures ReadTestsLoop(e, WordsBytes(e, ws) + tail, cur, acc) == Failure(ShortRead)
    decreases |ws|
  {
    if ws == [] {
      assert WordsBytes(e, ws) + tail == tail;
    } else {
      var s1 := WordsBytes(e, ws[1..]) + tail;
      WordsBytesSplitFirst(e, ws, tail);
      ReadTestsLoopStep(e, ws[0], s1, cur, acc);
      if ws[0] == ENTRY {
        ReadTestsLoopNotFound(e, ws[1..], tail, [], acc + [cur]);
      } else {
        ReadTestsLoopNotFound(e, ws[1..], tail, cur + [ws[0]], acc);
      }
    }
  }

  /**
   * The hit-list section in full: after the leading ENTRY, the words up to
   * the first INDICES split at every ENTRY; one more test than ENTRY words,
   * no test holding ENTRY or INDICES (NAMES is an ordinary hit here), and
   * every other word kept in order.
   */
  lemma ReadTestsSpec(e: Endian, pre: seq<word>, rest: Bytes)
    requires INDICES !in pre
    ensures ReadTests(WordBytes(e, ENTRY) + WordsBytes(e, pre + [INDICES]) + rest)
         == Success((e, SplitOn(ENTRY, pre), rest))
    ensures |SplitOn(ENTRY, pre)| == Count(ENTRY, pre) + 1
    ensures forall k | 0 <= k < |SplitOn(ENTRY, pre)| ::
      ENTRY !in SplitOn(ENTRY, pre)[k] && INDICES !in SplitOn(ENTRY, pre)[k]
    ensures Flatten(SplitOn(ENTRY, pre)) == Without(ENTRY, pre)
  {
    var body := WordsBytes(e, pre + [INDICES]) + rest;
    assert WordBytes(e, ENTRY) + WordsBytes(e, pre + [INDICES]) + rest == WordBytes(e, ENTRY) + body;
    TestEndianDetects(e, body);
    ReadTestsLoopFound(e, pre, rest, [], []);
    var p := SplitOn(ENTRY, pre);
    assert [] + p[0] == p[0];
    assert Prepend([], p) == p;
    assert [] + Prepend([], p) == p;
    SplitOnCount(ENTRY, pre);
    SplitOnParts(ENTRY, pre);
    SplitOnFlatten(ENTRY, pre);
  }

  lemma SplitOnCons(sep: word, w: word, ws: seq<word>)
    ensures SplitOn(sep, [w] + ws)
         == if w == sep then [[]] + SplitOn(sep, ws) else [[w] + SplitOn(sep, ws)[0]] + SplitOn(sep, ws)[1..]
  {
    assert ([w] + ws)[1..] == ws;
  }

  /**
   * The leading ENTRY is the byte-order probe, so `ENTRY 0 1 ENTRY 2 INDICES`
   * holds two tests, [0, 1] and [2].
   */
  lemma ReadTestsTwoTests(e: Endian, rest: Bytes)
    ensures ReadTests(WordBytes(e, ENTRY) + WordsBytes(e, [0, 1, ENTRY, 2, INDICES]) + rest)
         == Success((e, [[0, 1], [2]], rest))
  {
    var pre: seq<word> := [0, 1, ENTRY, 2];
    assert pre + [INDICES] == [0, 1, ENTRY, 2, INDICES];
    ReadTestsSpec(e, pre, rest);
    SplitOnExample();
  }

  lemma SplitOnExample()
    ensures SplitOn(ENTRY, [0, 1, ENTRY, 2]) == [[0, 1], [2]]
  {
    var p1: seq<seq<word>> := [[2]];
    SplitOnCons(ENTRY, 2, []);
    assert [2] + [] == [2];
    assert SplitOn(ENTRY, [2]) == p1;
    SplitOnCons(ENTRY, ENTRY, [2]);
    var p2: seq<seq<word>> := [[], [2]];
    assert SplitOn(ENTRY, [ENTRY, 2]) == p2;
    SplitOnCons(ENTRY, 1, [ENTRY, 2]);
    assert [1] + p2[0] == [1] && p2[1..] == [[2]];
    var p3: seq<seq<word>> := [[1], [2]];
    assert SplitOn(ENTRY, [1, ENTRY, 2]) == p3;
    SplitOnCons(ENTRY, 0, [1, ENTRY, 2]);
    assert [0] + p3[0] == [0, 1] && p3[1..] == [[2]];
  }

  // ---------------------------------------------------------------------
  // Section 2: global block index -> function index

  /** Appends words to the table until NAMES, which is not stored. */
  function ReadIndicesLoop(e: Endian, s: Bytes, table: seq<word>): (r: Result<(seq<word>, Bytes), ReadError>)
    ensures r.Success? ==> |r.value.0| >= |table| && r.value.0[..|table|] == table
    ensures r.Success? ==> forall i | |table| <= i < |r.value.0| :: r.value.0[i] != NAMES
    decreases |s|
  {
    var (token, rest) :- ReadUint32(e, s);
    if token == NAMES then Success((table, rest))
    else ReadIndicesLoop(e, rest, table + [token])
  }

  /**
   * The table section in full: position i holds the i-th word before the
   * first NAMES, NAMES itself is consumed and not stored. The stream
   * without a NAMES is ReadIndicesNotFound; every stream is ReadIndicesTotal.
   */
  lemma {:induction false} ReadIndicesSpec(e: Endian, pre: seq<word>, rest: Bytes, table: seq<word>)
    requires NAMES !in pre
    ensures ReadIndicesLoop(e, WordsBytes(e, pre + [NAMES]) + rest, table) == Success((table + pre, rest))
    decreases |pre|
  {
    var ws := pre + [NAMES];
    var s1 := WordsBytes(e, ws[1..]) + rest;
    WordsBytesSplitFirst(e, ws, rest);
    ReadUint32Word(e, ws[0], s1);
    if pre == [] {
      assert s1 == rest;
      assert table + pre == table;
    } else {
      assert ws[1..] == pre[1..] + [NAMES];
      ReadIndicesSpec(e, pre[1..], rest, table + [pre[0]]);
      assert table + [pre[0]] + pre[1..] == table + pre;
    }
  }

  lemma {:induction false} ReadIndicesNotFound(e: Endian, ws: seq<word>, tail: Bytes, table: seq<word>)
    requires NAMES !in ws
    requires |tail| < 4
    ensures ReadIndicesLoop(e, WordsBytes(e, ws) + tail, table) == Failure(ShortRead)
    decreases |ws|
  {
    if ws == [] {
      assert WordsBytes(e, ws) + tail == tail;
    } else {
      var s1 := WordsBytes(e, ws[1..]) + tail;
      WordsBytesSplitFirst(e, ws, tail);
      ReadUint32Word(e, ws[0], s1);
      ReadIndicesNotFound(e, ws[1..], tail, table + [ws[0]]);
    }
  }

  /**
   * Every stream, seen as its words and a short tail: the table section
   * ends at the first NAMES word, and a stream without one fails.
   */
  lemma ReadIndicesTotal(e: Endian, s: Bytes, table: seq<word>)
    ensures var ws := WordsOf(e, s);
      && (NAMES !in ws ==> ReadIndicesLoop(e, s, table) == Failure(ShortRead))
      && (forall k | 0 <= k < |ws| && ws[k] == NAMES && NAMES !in ws[..k] ::
            ReadIndicesLoop(e, s, table) == Success((table + ws[..k], s[4 * (k + 1)..])))
  {
    var ws := WordsOf(e, s);
    var tail := s[4 * (|s| / 4)..];
    Decompose(e, s);
    if NAMES !in ws {
      ReadIndicesNotFound(e, ws, tail, table);
    }
    forall k | 0 <= k < |ws| && ws[k] == NAMES && NAMES !in ws[..k]
      ensures ReadIndicesLoop(e, s, table) == Success((table + ws[..k], s[4 * (k + 1)..]))
    {
      ReadIndicesFirstNames(e, ws, tail, table, k);
    }
  }

  /** The words before the first NAMES word, read from words followed by a tail. */
  lemma ReadIndicesFirstNames(e: Endian, ws: seq<word>, tail: Bytes, table: seq<word>, k: nat)
    requires k < |ws| && ws[k] == NAMES && NAMES !in ws[..k]
    ensures ReadIndicesLoop(e, WordsBytes(e, ws) + tail, table) == Success((table + ws[..k], (WordsBytes(e, ws) + tail)[4 * (k + 1)..]))
  {
    var pre := ws[..k];
    var rest := WordsBytes(e, ws[k + 1..]) + tail;
    assert ws == pre + [NAMES] + ws[k + 1..];
    WordsBytesAppend(e, pre + [NAMES], ws[k + 1..]);
    ConcatAssoc(WordsBytes(e, pre + [NAMES]), WordsBytes(e, ws[k + 1..]), tail);
    ReadIndicesSpec(e, pre, rest, table);
  }

  // ---------------------------------------------------------------------
  // Section 3: function index -> name

  /** Reads (index, string) pairs until any read fails; the failure is swallowed. */
  function ReadNamesLoop(e: Endian, s: Bytes, names: map<word, Bytes>): (r: map<word, Bytes>)
    ensures names.Keys <= r.Keys
    decreases |s|
  {
    match ReadUint32(e, s)
    case Failure(_) => names
    case Success((index, s1)) =>
      match ReadStr(e, s1)
      case Failure(_) => names
      case Success((name, s2)) => ReadNamesLoop(e, s2, names[index := name])
  }

  /** Fewer than eight trailing bytes cannot hold an index and a word count: nothing is added. */
  lemma ReadNamesShortTail(e: Endian, s: Bytes, names: map<word, Bytes>)
    requires |s| < 8
    ensures ReadNamesLoop(e, s, names) == names
  {
    if |s| >= 4 {
      assert |ReadUint32(e, s).value.1| < 4;
    }
  }

  /** One complete pair sets its index to its NUL-stripped string, later pairs overwrite earlier ones. */
  lemma ReadNamesPair(e: Endian, index: word, n: word, payload: Bytes, rest: Bytes, names: map<word, Bytes>)
    requires |payload| == 4 * n
    ensures ReadNamesLoop(e, WordBytes(e, index) + WordBytes(e, n) + payload + rest, names)
         == ReadNamesLoop(e, rest, names[index := RStripNul(payload)])
  {
    var s := WordBytes(e, index) + WordBytes(e, n) + payload + rest;
    var s1 := WordBytes(e, n) + payload + rest;
    ConcatAssoc4(WordBytes(e, index), WordBytes(e, n), payload, rest);
    ReadUint32Word(e, index, s1);
    ReadStrComplete(e, n, payload, rest);
    var r1 := ReadStr(e, s1);
    assert r1 == Success((RStripNul(payload), rest));
  }

  /**
   * A pair whose string body is cut short still stores what was there:
   * `f.read` returns the bytes left instead of raising.
   */
  lemma ReadNamesTruncatedBody(e: Endian, index: word, n: word, payload: Bytes, names: map<word, Bytes>)
    requires |payload| < 4 * n
    ensures ReadNamesLoop(e, WordBytes(e, index) + WordBytes(e, n) + payload, names)
         == names[index := RStripNul(payload)]
  {
    var s := WordBytes(e, index) + WordBytes(e, n) + payload;
    var s1 := WordBytes(e, n) + payload;
    assert s == WordBytes(e, index) + s1;
    ReadUint32Word(e, index, s1);
    UnpackWordBytes(e, n);
    assert s1[..4] == WordBytes(e, n);
    assert s1[4..] == payload;
    assert s1[4..][..|payload|] == payload;
    ReadNamesShortTail(e, [], names[index := RStripNul(payload)]);
  }

  // ---------------------------------------------------------------------

  /** `ReportParser.read` on an in-memory stream: the three sections in order. */
  function Read(s: Bytes): (r: Result<Report, ReadError>)
    ensures r.Success? ==> |r.value.tests| >= 1 && |s| >= 4 && s[..4] == WordBytes(r.value.endian, ENTRY)
    ensures r.Success? ==> NAMES !in r.value.table
  {
    var (e, tests, s1) :- ReadTests(s);
    var (table, s2) :- ReadIndicesLoop(e, s1, []);
    Success(Report(e, tests, table, ReadNamesLoop(e, s2, map[])))
  }
}
