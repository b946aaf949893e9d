/**
 * What the decoder makes of what the runtime writes: strings, the three
 * sections, and a whole report from the first finished test to the zero
 * word past the end.
 */
module RoundTrip {
  import opened Wrappers
  import opened Wire
  import opened BinaryParser
  import opened ReportParser
  import opened Runtime

  // ---------------------------------------------------------------------
  // Strings

  /** The word count `write` puts in front of `s` fits its uint32, so it is not truncated. */
  predicate Fits(s: Bytes) {
    |s| / 4 + 1 < WORD_MOD
  }

  lemma {:induction false} RStripNulPadded(s: Bytes, k: nat)
    requires IsCString(s)
    ensures RStripNul(s + Zeros(k)) == s
    decreases k
  {
    var b := s + Zeros(k);
    if k == 0 {
      assert b == s;
      if |s| > 0 {
        assert s[|s| - 1] != 0;
      }
    } else {
      assert b[|b| - 1] == 0;
      assert b[..|b| - 1] == s + Zeros(k - 1);
      RStripNulPadded(s, k - 1);
    }
  }

  /** The string as `write` lays it out: its word count, then the bytes padded to a word boundary. */
  lemma WriteStringParts(e: Endian, s: Bytes)
    requires Fits(s)
    ensures WriteString(e, s) == WordBytes(e, ToWord(|s| / 4 + 1)) + (s + Zeros(4 - |s| % 4))
    ensures |s + Zeros(4 - |s| % 4)| == 4 * ToWord(|s| / 4 + 1)
  {
    ConcatAssoc(WordBytes(e, ToWord(|s| / 4 + 1)), s, Zeros(4 - |s| % 4));
  }

  /** A C string written by `write(std::string_view)` is read back by `read_str` unchanged. */
  lemma StringRoundTrip(e: Endian, s: Bytes, rest: Bytes)
    requires IsCString(s)
    requires Fits(s)
    ensures ReadStr(e, WriteString(e, s) + rest) == Success((s, rest))
  {
    var n := ToWord(|s| / 4 + 1);
    var payload := s + Zeros(4 - |s| % 4);
    StringBytes(e, s, rest);
    ReadStrComplete(e, n, payload, rest);
  }

  /** A written string is its count word and a padded payload that strips back to the string. */
  lemma StringBytes(e: Endian, s: Bytes, rest: Bytes)
    requires IsCString(s) && Fits(s)
    ensures var n := ToWord(|s| / 4 + 1);
            var payload := s + Zeros(4 - |s| % 4);
            && WriteString(e, s) + rest == WordBytes(e, n) + payload + rest
            && |payload| == 4 * (n as int)
            && RStripNul(payload) == s
  {
    WriteStringParts(e, s);
    RStripNulPadded(s, 4 - |s| % 4);
  }

  /** A string with trailing NULs loses them: the format cannot carry them. */
  lemma StringTrailingNulLost(e: Endian, s: Bytes, rest: Bytes)
    requires Fits(s)
    requires |s| > 0 && s[|s| - 1] == 0
    ensures ReadStr(e, WriteString(e, s) + rest).Success?
    ensures ReadStr(e, WriteString(e, s) + rest).value.0 != s
  {
    StringReadBack(e, s, rest);
  }

  /** Any string reads back as its padded payload with the trailing NULs stripped. */
  lemma StringReadBack(e: Endian, s: Bytes, rest: Bytes)
    requires Fits(s)
    ensures ReadStr(e, WriteString(e, s) + rest) == Success((RStripNul(s + Zeros(4 - |s| % 4)), rest))
  {
    var n := ToWord(|s| / 4 + 1);
    var payload := s + Zeros(4 - |s| % 4);
    WriteStringParts(e, s);
    ReadStrComplete(e, n, payload, rest);
    assert WriteString(e, s) + rest == WordBytes(e, n) + payload + rest;
  }

  // ---------------------------------------------------------------------
  // Section 1: the finished tests

  /** The hit list each finished test writes after its ENTRY. */
  function HitLists(snapshots: seq<seq<bool>>): (h: seq<seq<word>>)
    ensures |h| == |snapshots|
  {
    seq(|snapshots|, k requires 0 <= k < |snapshots| => TestFinished(snapshots[k]).words[1..])
  }

  /** Each part written after its own ENTRY word. */
  function Entries(e: Endian, parts: seq<seq<word>>): Bytes
    decreases |parts|
  {
    if parts == [] then [] else WordsBytes(e, [ENTRY] + parts[0]) + Entries(e, parts[1..])
  }

  /** Parts each led by ENTRY are one ENTRY followed by the parts joined by ENTRY. */
  lemma {:induction false} EntriesJoin(e: Endian, parts: seq<seq<word>>)
    requires |parts| >= 1
    ensures Entries(e, parts) == WordBytes(e, ENTRY) + WordsBytes(e, JoinWith(ENTRY, parts))
    decreases |parts|
  {
    var ent := WordBytes(e, ENTRY);
    var p0 := WordsBytes(e, parts[0]);
    WordsBytesCons(e, ENTRY, parts[0]);
    if |parts| == 1 {
      assert Entries(e, parts[1..]) == [];
      assert Entries(e, parts) == ent + p0 + [];
    } else {
      var j := JoinWith(ENTRY, parts[1..]);
      EntriesJoin(e, parts[1..]);
      assert Entries(e, parts) == ent + p0 + (ent + WordsBytes(e, j));
      WordsBytesAppend(e, parts[0] + [ENTRY], j);
      WordsBytesAppend(e, parts[0], [ENTRY]);
      WordsBytesCons(e, ENTRY, []);
      assert WordsBytes(e, [ENTRY]) == ent + [];
      assert WordsBytes(e, JoinWith(ENTRY, parts)) == p0 + (ent + []) + WordsBytes(e, j);
      ConcatAssoc(ent, p0, ent + WordsBytes(e, j));
      ConcatAssoc(p0, ent, WordsBytes(e, j));
      assert ent + [] == ent;
    }
  }

  /** The bytes of the finished tests are their hit lists, each led by ENTRY. */
  lemma {:induction false} TestsBytesEntries(e: Endian, snapshots: seq<seq<bool>>)
    ensures TestsBytes(e, snapshots) == Entries(e, HitLists(snapshots))
    decreases |snapshots|
  {
    if snapshots != [] {
      var w := TestFinished(snapshots[0]).words;
      assert w == [w[0]] + w[1..];
      assert HitLists(snapshots)[0] == w[1..];
      assert HitLists(snapshots)[1..] == HitLists(snapshots[1..]);
      TestsBytesEntries(e, snapshots[1..]);
    }
  }

  /** The tests' bytes are one ENTRY followed by the hit lists joined by ENTRY. */
  lemma TestsBytesJoin(e: Endian, snapshots: seq<seq<bool>>)
    requires |snapshots| >= 1
    ensures TestsBytes(e, snapshots) == WordBytes(e, ENTRY) + WordsBytes(e, JoinWith(ENTRY, HitLists(snapshots)))
  {
    TestsBytesEntries(e, snapshots);
    EntriesJoin(e, HitLists(snapshots));
  }

  lemma {:induction false} JoinWithBelow(sep: word, parts: seq<seq<word>>, b: int)
    requires |parts| >= 1
    requires sep < b
    requires forall k, i | 0 <= k < |parts| && 0 <= i < |parts[k]| :: parts[k][i] < b
    ensures forall i | 0 <= i < |JoinWith(sep, parts)| :: JoinWith(sep, parts)[i] < b
    decreases |parts|
  {
    if |parts| > 1 {
      JoinWithBelow(sep, parts[1..], b);
      assert forall k | 0 <= k < |parts| - 1 :: parts[1..][k] == parts[k + 1];
    }
  }

  /**
   * With fewer counters than the value of ENTRY, a hit list holds exactly
   * the indices of the set counters, ascending, and so no sentinel.
   */
  lemma HitListsMeaning(snapshots: seq<seq<bool>>, blocks: nat)
    requires blocks < ENTRY
    requires forall k | 0 <= k < |snapshots| :: |snapshots[k]| == blocks
    ensures forall k, i | 0 <= k < |snapshots| && 0 <= i < |HitLists(snapshots)[k]| ::
      HitLists(snapshots)[k][i] < blocks && snapshots[k][HitLists(snapshots)[k][i]]
    ensures forall k, j | 0 <= k < |snapshots| && 0 <= j < blocks ::
      (j in HitLists(snapshots)[k]) <==> snapshots[k][j]
    ensures forall k, i, l | 0 <= k < |snapshots| && 0 <= i < l < |HitLists(snapshots)[k]| ::
      HitLists(snapshots)[k][i] < HitLists(snapshots)[k][l]
  {
    forall k | 0 <= k < |snapshots|
      ensures HitLists(snapshots)[k] == TestFinished(snapshots[k]).words[1..]
    {
      TestFinishedHits(snapshots[k]);
    }
  }

  // ---------------------------------------------------------------------
  // Section 2: the block -> function-index table

  /**
   * The table the runtime writes: one entry per block, below the number of
   * blocks, equal exactly where the blocks' name pointers are equal.
   */
  lemma TableMeaning(names: seq<NamePtr>)
    requires |names| < ENTRY
    ensures var t := ToWords(AssignIndices(names).table);
      && |t| == |names|
      && (forall i | 0 <= i < |t| :: t[i] == AssignIndices(names).table[i] < |AssignIndices(names).index| <= |names|)
      && (forall i, j | 0 <= i < |t| && 0 <= j < |t| :: t[i] == t[j] <==> names[i] == names[j])
  {
    AssignedTable(names);
    AssignedIndex(names);
  }

  // ---------------------------------------------------------------------
  // Section 3: the names

  /** The index word of each pointer, in iteration order. */
  function SectionWords(order: seq<NamePtr>, index: map<NamePtr, nat>): (ws: seq<word>)
    requires forall k | 0 <= k < |order| :: order[k] in index
    ensures |ws| == |order|
    ensures forall k | 0 <= k < |order| :: ws[k] == ToWord(index[order[k]])
  {
    ToWords(SectionIndices(order, index))
  }

  /** The decoder's map after reading the pairs the name loop wrote for `order`. */
  function SectionMap(order: seq<NamePtr>, index: map<NamePtr, nat>, m: map<word, Bytes>): map<word, Bytes>
    requires forall k | 0 <= k < |order| :: order[k] in index
    decreases |order|
  {
    if order == [] then m
    else SectionMap(order[1..], index, m[ToWord(index[order[0]]) := order[0].text])
  }

  /** Every name is a C string short enough for its word count to fit in 32 bits. */
  predicate Writable(names: seq<NamePtr>) {
    forall k | 0 <= k < |names| :: IsCString(names[k].text) && Fits(names[k].text)
  }

  /** One (index, name) pair as the name loop writes it is read back as that entry. */
  lemma ReadNamePair(e: Endian, w: word, text: Bytes, rest: Bytes, m: map<word, Bytes>)
    requires IsCString(text) && Fits(text)
    ensures ReadNamesLoop(e, WordBytes(e, w) + WriteString(e, text) + rest, m) == ReadNamesLoop(e, rest, m[w := text])
  {
    var n := ToWord(|text| / 4 + 1);
    var payload := text + Zeros(4 - |text| % 4);
    NamePairBytes(e, w, text, rest);
    ReadNamesPair(e, w, n, payload, rest, m);
    assert m[w := RStripNul(payload)] == m[w := text];
  }

  /** The bytes of one written pair: index word, count word, padded payload that strips back to the name. */
  lemma NamePairBytes(e: Endian, w: word, text: Bytes, rest: Bytes)
    requires IsCString(text) && Fits(text)
    ensures var n := ToWord(|text| / 4 + 1);
            var payload := text + Zeros(4 - |text| % 4);
            && WordBytes(e, w) + WriteString(e, text) + rest == WordBytes(e, w) + WordBytes(e, n) + payload + rest
            && |payload| == 4 * (n as int)
            && RStripNul(payload) == text
  {
    var n := ToWord(|text| / 4 + 1);
    var payload := text + Zeros(4 - |text| % 4);
    WriteStringParts(e, text);
    ConcatAssoc(WordBytes(e, w), WordBytes(e, n), payload);
    RStripNulPadded(text, 4 - |text| % 4);
  }

  /** Reading the name section adds each pair's name under its index, in order. */
  lemma {:induction false} ReadNameSection(e: Endian, order: seq<NamePtr>, index: map<NamePtr, nat>, tail: Bytes, m: map<word, Bytes>)
    requires forall k | 0 <= k < |order| :: order[k] in index
    requires Writable(order)
    ensures ReadNamesLoop(e, NameSection(e, order, index) + tail, m) == ReadNamesLoop(e, tail, SectionMap(order, index, m))
    decreases |order|
  {
    if order == [] {
      assert NameSection(e, order, index) + tail == tail;
    } else {
      var o := order[0];
      var w := ToWord(index[o]);
      var later := NameSection(e, order[1..], index);
      assert NameSection(e, order, index) == WordBytes(e, w) + WriteString(e, o.text) + later;
      ConcatAssoc(WordBytes(e, w) + WriteString(e, o.text), later, tail);
      ReadNamePair(e, w, o.text, later + tail, m);
      forall k | 0 <= k < |order| - 1
        ensures order[1..][k] in index && IsCString(order[1..][k].text) && Fits(order[1..][k].text)
      {
        assert order[1..][k] == order[k + 1];
      }
      ReadNameSection(e, order[1..], index, tail, m[w := o.text]);
    }
  }

  /**
   * With distinct index words, the map holds each pointer's string under its
   * index word and keeps every other entry.
   */
  lemma {:induction false} SectionMapSpec(order: seq<NamePtr>, index: map<NamePtr, nat>, m: map<word, Bytes>)
    requires forall k | 0 <= k < |order| :: order[k] in index
    requires Distinct(SectionWords(order, index))
    ensures var r := SectionMap(order, index, m);
      var ws := SectionWords(order, index);
      && (forall k | 0 <= k < |order| :: ws[k] in r && r[ws[k]] == order[k].text)
      && (forall w | w in m && w !in ws :: w in r && r[w] == m[w])
    decreases |order|
  {
    if order != [] {
      var ws := SectionWords(order, index);
      var w0 := ws[0];
      var m' := m[w0 := order[0].text];
      var tl := order[1..];
      forall k | 0 <= k < |tl|
        ensures tl[k] in index
      {
        assert tl[k] == order[k + 1];
      }
      var ws' := SectionWords(tl, index);
      assert forall k | 0 <= k < |tl| :: ws'[k] == ws[k + 1];
      assert Distinct(ws');
      SectionMapSpec(tl, index, m');
      var r := SectionMap(order, index, m);
      assert r == SectionMap(tl, index, m');
      assert w0 !in ws';
      forall k | 0 <= k < |order|
        ensures ws[k] in r && r[ws[k]] == order[k].text
      {
        if k > 0 {
          assert ws[k] == ws'[k - 1];
          assert order[k] == tl[k - 1];
        }
      }
    }
  }

  /** The map gains no key besides the index words it visits. */
  lemma {:induction false} SectionMapDomain(order: seq<NamePtr>, index: map<NamePtr, nat>, m: map<word, Bytes>)
    requires forall k | 0 <= k < |order| :: order[k] in index
    ensures forall w | w in SectionMap(order, index, m) :: w in m || w in SectionWords(order, index)
    decreases |order|
  {
    if order != [] {
      var ws := SectionWords(order, index);
      var m' := m[ws[0] := order[0].text];
      var tl := order[1..];
      forall k | 0 <= k < |tl|
        ensures tl[k] in index
      {
        assert tl[k] == order[k + 1];
      }
      var ws' := SectionWords(tl, index);
      SectionMapDomain(tl, index, m');
      assert SectionMap(order, index, m) == SectionMap(tl, index, m');
      forall w | w in SectionMap(order, index, m)
        ensures w in m || w in ws
      {
        if w in ws' {
          var j :| 0 <= j < |ws'| && ws'[j] == w;
          assert ws[j + 1] == w;
        }
      }
    }
  }

  /** Every pointer the name loop visits is one of the blocks' names. */
  lemma OrderWritable(names: seq<NamePtr>, order: seq<NamePtr>)
    requires Writable(names)
    requires Enumerates(order, AssignIndices(names).index)
    ensures Writable(order)
  {
    AssignedKeys(names);
    forall k | 0 <= k < |order|
      ensures IsCString(order[k].text) && Fits(order[k].text)
    {
      var i :| 0 <= i < |names| && names[i] == order[k];
    }
  }

  /** The index words of the name section are the indices themselves, below the block count. */
  lemma SectionWordsBelow(names: seq<NamePtr>, order: seq<NamePtr>)
    requires |names| < ENTRY
    requires Enumerates(order, AssignIndices(names).index)
    ensures var index := AssignIndices(names).index;
      forall k | 0 <= k < |order| :: SectionWords(order, index)[k] == index[order[k]] < |index| <= |names|
  {
    var index := AssignIndices(names).index;
    var ws := SectionWords(order, index);
    AssignedIndex(names);
    forall k | 0 <= k < |order|
      ensures ws[k] == index[order[k]] < |index| <= |names|
    {
      assert index[order[k]] < |index|;
    }
  }

  /** The index words of the name section are distinct, as the iteration visits each key once. */
  lemma SectionWordsDistinct(names: seq<NamePtr>, order: seq<NamePtr>)
    requires |names| < ENTRY
    requires Enumerates(order, AssignIndices(names).index)
    ensures Distinct(SectionWords(order, AssignIndices(names).index))
  {
    var index := AssignIndices(names).index;
    var ws := SectionWords(order, index);
    AssignedIndex(names);
    SectionWordsBelow(names, order);
    forall k, l | 0 <= k < l < |ws|
      ensures ws[k] != ws[l]
    {
      assert order[k] != order[l];
      assert ws[k] == index[order[k]] && ws[l] == index[order[l]];
    }
  }

  /** Each block's index word maps to the block's name. */
  lemma SectionMapNames(names: seq<NamePtr>, order: seq<NamePtr>)
    requires |names| < ENTRY
    requires Enumerates(order, AssignIndices(names).index)
    ensures var a := AssignIndices(names);
      var r := SectionMap(order, a.index, map[]);
      forall i | 0 <= i < |names| :: a.table[i] in r && r[a.table[i]] == names[i].text
  {
    var a := AssignIndices(names);
    var ws := SectionWords(order, a.index);
    SectionWordsBelow(names, order);
    SectionWordsDistinct(names, order);
    SectionMapSpec(order, a.index, map[]);
    AssignedTable(names);
    forall i | 0 <= i < |names|
      ensures a.table[i] in SectionMap(order, a.index, map[])
      ensures SectionMap(order, a.index, map[])[a.table[i]] == names[i].text
    {
      var k :| 0 <= k < |order| && order[k] == names[i];
      assert ws[k] == a.table[i];
    }
  }

  /** The map gains no key that is not some block's index. */
  lemma SectionMapKeys(names: seq<NamePtr>, order: seq<NamePtr>)
    requires |names| < ENTRY
    requires Enumerates(order, AssignIndices(names).index)
    ensures var a := AssignIndices(names);
      forall w | w in SectionMap(order, a.index, map[]) :: w in a.table
  {
    var a := AssignIndices(names);
    var ws := SectionWords(order, a.index);
    SectionWordsBelow(names, order);
    SectionMapDomain(order, a.index, map[]);
    AssignedCover(names);
    forall w | w in SectionMap(order, a.index, map[])
      ensures w in a.table
    {
      var k :| 0 <= k < |ws| && ws[k] == w;
      assert w < |a.index|;
    }
  }

  /**
   * The names the runtime writes decode to a map from each block's function
   * index to that block's name, with no other key.
   */
  lemma NamesMeaning(e: Endian, names: seq<NamePtr>, order: seq<NamePtr>, tail: Bytes)
    requires |names| < ENTRY
    requires Writable(names)
    requires Enumerates(order, AssignIndices(names).index)
    requires |tail| < 8
    ensures var a := AssignIndices(names);
      var r := ReadNamesLoop(e, NameSection(e, order, a.index) + tail, map[]);
      && r == SectionMap(order, a.index, map[])
      && (forall i | 0 <= i < |names| :: a.table[i] in r && r[a.table[i]] == names[i].text)
      && (forall w | w in r :: w in a.table)
  {
    var index := AssignIndices(names).index;
    OrderWritable(names, order);
    ReadNameSection(e, order, index, tail, map[]);
    ReadNamesShortTail(e, tail, SectionMap(order, index, map[]));
    SectionMapNames(names, order);
    SectionMapKeys(names, order);
  }

  // ---------------------------------------------------------------------
  // The whole report

  /** Moves a separator word from the front of one run of words to the end of the run before it. */
  lemma MoveSeparator(e: Endian, pre: seq<word>, sep: word, post: seq<word>, tail: Bytes)
    ensures WordsBytes(e, pre) + WordsBytes(e, [sep] + post) + tail
         == WordsBytes(e, pre + [sep]) + (WordsBytes(e, post) + tail)
  {
    WordsBytesAppend(e, pre, [sep]);
    WordsBytesAppend(e, [sep], post);
  }

  lemma SessionRegroup(ent: Bytes, p: Bytes, iw: Bytes, ns: Bytes, z: Bytes)
    ensures ent + p + (iw + ns) + z == ent + (p + iw + (ns + z))
  {
    ConcatAssoc(ent + p, iw + ns, z);
    ConcatAssoc(iw, ns, z);
    ConcatAssoc(ent, p, iw + (ns + z));
    ConcatAssoc(p, iw, ns + z);
  }

  /** A report's bytes, regrouped at the section boundaries the decoder sees. */
  lemma SessionLayout(e: Endian, snapshots: seq<seq<bool>>, names: seq<NamePtr>, order: seq<NamePtr>)
    requires |snapshots| >= 1
    requires Enumerates(order, AssignIndices(names).index)
    ensures var a := AssignIndices(names);
      Session(e, snapshots, names, order)
      == WordBytes(e, ENTRY) + WordsBytes(e, JoinWith(ENTRY, HitLists(snapshots)) + [INDICES])
         + (WordsBytes(e, ToWords(a.table) + [NAMES]) + (NameSection(e, order, a.index) + WordBytes(e, 0)))
  {
    var a := AssignIndices(names);
    var t := ToWords(a.table);
    var tail := NameSection(e, order, a.index) + WordBytes(e, 0);
    var pre := JoinWith(ENTRY, HitLists(snapshots));
    var ent := WordBytes(e, ENTRY);
    var p := WordsBytes(e, pre);
    var iw := WordsBytes(e, IndexWords(a.table));
    var ns := NameSection(e, order, a.index);
    var z := WordBytes(e, 0);
    TestsBytesJoin(e, snapshots);
    assert Session(e, snapshots, names, order) == ent + p + (iw + ns) + z;
    SessionRegroup(ent, p, iw, ns, z);
    assert IndexWords(a.table) == [INDICES] + (t + [NAMES]);
    MoveSeparator(e, pre, INDICES, t + [NAMES], tail);
    ConcatAssoc(ent, WordsBytes(e, pre + [INDICES]), WordsBytes(e, t + [NAMES]) + tail);
  }

  /** The report a run with these snapshots and blocks is decoded to. */
  lemma SessionDecodes(e: Endian, snapshots: seq<seq<bool>>, names: seq<NamePtr>, order: seq<NamePtr>)
    requires |snapshots| >= 1
    requires forall k | 0 <= k < |snapshots| :: |snapshots[k]| == |names|
    requires |names| < ENTRY
    requires Writable(names)
    requires Enumerates(order, AssignIndices(names).index)
    ensures Read(Session(e, snapshots, names, order))
         == Success(Report(e, HitLists(snapshots), ToWords(AssignIndices(names).table),
                           SectionMap(order, AssignIndices(names).index, map[])))
  {
    var a := AssignIndices(names);
    var t := ToWords(a.table);
    var s2 := NameSection(e, order, a.index) + WordBytes(e, 0);
    var s1 := WordsBytes(e, t + [NAMES]) + s2;
    SessionLayout(e, snapshots, names, order);
    SessionTests(e, snapshots, |names|, s1);
    SessionTable(e, names, s2);
    NamesMeaning(e, names, order, WordBytes(e, 0));
  }

  /** The decoder reads the finished tests back as their hit lists. */
  lemma SessionTests(e: Endian, snapshots: seq<seq<bool>>, blocks: nat, s1: Bytes)
    requires |snapshots| >= 1
    requires forall k | 0 <= k < |snapshots| :: |snapshots[k]| == blocks
    requires blocks < ENTRY
    ensures ReadTests(WordBytes(e, ENTRY) + WordsBytes(e, JoinWith(ENTRY, HitLists(snapshots)) + [INDICES]) + s1)
         == Success((e, HitLists(snapshots), s1))
  {
    var h := HitLists(snapshots);
    HitListsMeaning(snapshots, blocks);
    JoinWithBelow(ENTRY, h, INDICES);
    SplitOnJoinWith(ENTRY, h);
    ReadTestsSpec(e, JoinWith(ENTRY, h), s1);
  }

  /** The decoder reads the block table back as written. */
  lemma SessionTable(e: Endian, names: seq<NamePtr>, s2: Bytes)
    requires |names| < ENTRY
    ensures ReadIndicesLoop(e, WordsBytes(e, ToWords(AssignIndices(names).table) + [NAMES]) + s2, [])
         == Success((ToWords(AssignIndices(names).table), s2))
  {
    var t := ToWords(AssignIndices(names).table);
    TableMeaning(names);
    ReadIndicesSpec(e, t, s2, []);
    assert [] + t == t;
  }

  /**
   * Full-stream round trip: one test per `tinycoverage_test_finished` call,
   * each holding exactly the blocks hit since the previous one in ascending
   * order; the table giving every block its function's index; and that index
   * naming the block's function.
   */
  lemma FullStreamRoundTrip(e: Endian, snapshots: seq<seq<bool>>, names: seq<NamePtr>, order: seq<NamePtr>)
    requires |snapshots| >= 1
    requires forall k | 0 <= k < |snapshots| :: |snapshots[k]| == |names|
    requires |names| < ENTRY
    requires Writable(names)
    requires Enumerates(order, AssignIndices(names).index)
    ensures var r := Read(Session(e, snapshots, names, order));
      && r.Success?
      && r.value.endian == e
      && |r.value.tests| == |snapshots|
      && (forall k, j | 0 <= k < |snapshots| && 0 <= j < |names| :: (j in r.value.tests[k]) <==> snapshots[k][j])
      && (forall k, i | 0 <= k < |snapshots| && 0 <= i < |r.value.tests[k]| :: r.value.tests[k][i] < |names|)
      && (forall k, i, l | 0 <= k < |snapshots| && 0 <= i < l < |r.value.tests[k]| ::
            r.value.tests[k][i] < r.value.tests[k][l])
      && |r.value.table| == |names|
      && (forall i | 0 <= i < |names| :: r.value.table[i] == AssignIndices(names).table[i])
      && (forall i, j | 0 <= i < |names| && 0 <= j < |names| ::
            r.value.table[i] == r.value.table[j] <==> names[i] == names[j])
      && (forall i | 0 <= i < |names| ::
            r.value.table[i] in r.value.names && r.value.names[r.value.table[i]] == names[i].text)
      && (forall w | w in r.value.names :: w in r.value.table)
  {
    SessionDecodes(e, snapshots, names, order);
    HitListsMeaning(snapshots, |names|);
    TableMeaning(names);
    ReportNamesMeaning(names, order);
  }

  /** The decoded names: each block's index word names its function, and nothing else is named. */
  lemma ReportNamesMeaning(names: seq<NamePtr>, order: seq<NamePtr>)
    requires |names| < ENTRY
    requires Enumerates(order, AssignIndices(names).index)
    ensures var a := AssignIndices(names);
      var table := ToWords(a.table);
      var m := SectionMap(order, a.index, map[]);
      && (forall i | 0 <= i < |names| :: table[i] in m && m[table[i]] == names[i].text)
      && (forall w | w in m :: w in table)
  {
    var a := AssignIndices(names);
    var table := ToWords(a.table);
    var m := SectionMap(order, a.index, map[]);
    TableBelow(names);
    SectionMapNames(names, order);
    SectionMapKeys(names, order);
    forall i | 0 <= i < |names|
      ensures table[i] in m && m[table[i]] == names[i].text
    {
      assert table[i] == a.table[i];
    }
    ToWordsCover(a.table);
  }

  /** Every table entry is below the number of blocks, so it fits a word unchanged. */
  lemma TableBelow(names: seq<NamePtr>)
    requires |names| < ENTRY
    ensures var a := AssignIndices(names);
      forall i | 0 <= i < |a.table| :: a.table[i] < |names| && ToWords(a.table)[i] == a.table[i]
  {
    AssignedTable(names);
    AssignedIndex(names);
  }

  /** Every index the table holds survives the conversion to words. */
  lemma ToWordsCover(table: seq<nat>)
    requires forall i | 0 <= i < |table| :: table[i] < WORD_MOD
    ensures forall w | w in table :: w in ToWords(table)
  {
    forall w | w in table
      ensures w in ToWords(table)
    {
      var i :| 0 <= i < |table| && table[i] == w;
      assert ToWords(table)[i] == w;
    }
  }

  /** The writer's byte order changes only the byte order the decoder reports. */
  lemma SessionEndianIndependent(snapshots: seq<seq<bool>>, names: seq<NamePtr>, order: seq<NamePtr>)
    requires |snapshots| >= 1
    requires forall k | 0 <= k < |snapshots| :: |snapshots[k]| == |names|
    requires |names| < ENTRY
    requires Writable(names)
    requires Enumerates(order, AssignIndices(names).index)
    ensures Read(Session(Big, snapshots, names, order)).Success?
    ensures Read(Session(Little, snapshots, names, order)).Success?
    ensures Read(Session(Big, snapshots, names, order)).value.(endian := Little)
         == Read(Session(Little, snapshots, names, order)).value
  {
    SessionDecodes(Big, snapshots, names, order);
    SessionDecodes(Little, snapshots, names, order);
  }

  /**
   * A run that finished no test starts with INDICES, which is ENTRY in
   * neither byte order: the decoder rejects the whole report.
   */
  lemma EmptyRunRejected(e: Endian, names: seq<NamePtr>, order: seq<NamePtr>)
    requires Enumerates(order, AssignIndices(names).index)
    ensures Read(Session(e, [], names, order)) == Failure(NoEntrySentinel)
  {
    var a := AssignIndices(names);
    var tail := WordsBytes(e, ToWords(a.table) + [NAMES]) + NameSection(e, order, a.index) + WordBytes(e, 0);
    EmptySessionLayout(e, names, order);
    TestEndianIndices(e, tail);
  }

  lemma EmptySessionLayout(e: Endian, names: seq<NamePtr>, order: seq<NamePtr>)
    requires Enumerates(order, AssignIndices(names).index)
    ensures var a := AssignIndices(names);
      Session(e, [], names, order)
      == WordBytes(e, INDICES) + (WordsBytes(e, ToWords(a.table) + [NAMES]) + NameSection(e, order, a.index) + WordBytes(e, 0))
  {
    var a := AssignIndices(names);
    EmptySessionParts(e, names, order);
    IndexWordsFirst(e, a.table);
    ConcatAssoc4(WordBytes(e, INDICES), WordsBytes(e, ToWords(a.table) + [NAMES]), NameSection(e, order, a.index), WordBytes(e, 0));
  }

  /** A run that finished no test is `emit_func_names_set` and the zero word. */
  lemma EmptySessionParts(e: Endian, names: seq<NamePtr>, order: seq<NamePtr>)
    requires Enumerates(order, AssignIndices(names).index)
    ensures var a := AssignIndices(names);
      Session(e, [], names, order)
      == WordsBytes(e, IndexWords(a.table)) + NameSection(e, order, a.index) + WordBytes(e, 0)
  {
    assert Session(e, [], names, order) == EmitFuncNamesSet(e, names, order) + WordBytes(e, 0);
  }

  /** The index words split into INDICES and the words after it. */
  lemma IndexWordsFirst(e: Endian, table: seq<nat>)
    ensures WordsBytes(e, IndexWords(table)) == WordBytes(e, INDICES) + WordsBytes(e, ToWords(table) + [NAMES])
  {
    assert IndexWords(table) == [INDICES] + (ToWords(table) + [NAMES]);
    WordsBytesCons(e, INDICES, ToWords(table) + [NAMES]);
  }

  /** INDICES, in either byte order, is not ENTRY in either byte order. */
  lemma TestEndianIndices(e: Endian, rest: Bytes)
    ensures TestEndian(WordBytes(e, INDICES) + rest) == Failure(NoEntrySentinel)
  {
    var s := WordBytes(e, INDICES) + rest;
    assert s[..4] == WordBytes(e, INDICES);
    if e == Big {
      assert WordBytes(e, INDICES) == [0xfe, 0xfe, 0xfe, 0xab];
    } else {
      assert WordBytes(e, INDICES) == [0xab, 0xfe, 0xfe, 0xfe];
    }
  }
}
