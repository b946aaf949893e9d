/**
 * The runtime side of the report: each finished test appends ENTRY and the
 * indices of the counters that fired, and shutdown appends the block ->
 * function-index table and the (index, name) pairs. Words go out in the
 * writing machine's byte order `e`.
 */
module Runtime {
  import opened Wire

  /** A function-name pointer: identity is the address, `text` the C string it points to. */
  datatype NamePtr = NamePtr(addr: nat, text: Bytes)

  /** A C string holds no NUL: `std::string_view` of a `char *` stops at the first one. */
  predicate IsCString(b: Bytes) {
    forall i | 0 <= i < |b| :: b[i] != 0
  }

  function Zeros(n: nat): (z: Bytes)
    ensures |z| == n
    ensures forall i | 0 <= i < n :: z[i] == 0
  {
    seq(n, i => 0)
  }

  /**
   * `write(std::string_view)`: the word count size/4 + 1, the bytes, then
   * 4 - size%4 NULs, so the cursor ends on a word boundary after at least
   * one NUL.
   */
  function WriteString(e: Endian, s: Bytes): (out: Bytes)
    ensures |out| == 4 + 4 * (|s| / 4 + 1)
    ensures |out| % 4 == 0
    ensures out[..4] == WordBytes(e, ToWord(|s| / 4 + 1))
    ensures out[4..4 + |s|] == s
    ensures |out| > 4 + |s|
    ensures forall i | 4 + |s| <= i < |out| :: out[i] == 0
  {
    WordBytes(e, ToWord(|s| / 4 + 1)) + s + Zeros(4 - |s| % 4)
  }

  /** The words one `tinycoverage_test_finished` writes and the counters it leaves. */
  datatype Flush = Flush(words: seq<word>, counters: seq<bool>)

  /** The positions at or after `from` whose counter is set, ascending. */
  function SetIndices(c: seq<bool>, from: nat): (r: seq<nat>)
    requires from <= |c|
    ensures forall k | 0 <= k < |r| :: from <= r[k] < |c| && c[r[k]]
    ensures forall k, l | 0 <= k < l < |r| :: r[k] < r[l]
    ensures forall j | from <= j < |c| && c[j] :: j in r
    decreases |c| - from
  {
    if from == |c| then [] else (if c[from] then [from] else []) + SetIndices(c, from + 1)
  }

  /**
   * `tinycoverage_test_finished`: ENTRY, then the index of every set
   * counter (what it writes is stated by `TestFinishedHits`); every counter
   * is false afterwards.
   */
  function TestFinished(counters: seq<bool>): (r: Flush)
    ensures |r.words| >= 1 && r.words[0] == ENTRY
    ensures |r.counters| == |counters|
    ensures forall j | 0 <= j < |counters| :: !r.counters[j]
  {
    Flush([ENTRY] + ToWords(SetIndices(counters, 0)), seq(|counters|, j => false))
  }

  /**
   * The words after ENTRY: every set counter's index (truncated to 32 bits
   * as `write` does), and, when the indices fit in 32 bits, only those, each
   * once, in ascending order.
   */
  lemma TestFinishedHits(counters: seq<bool>)
    ensures var h := TestFinished(counters).words[1..];
      && (forall j | 0 <= j < |counters| && counters[j] :: ToWord(j) in h)
      && (|counters| <= WORD_MOD ==> forall k | 0 <= k < |h| :: h[k] < |counters| && counters[h[k]])
      && (|counters| <= WORD_MOD ==> forall j | 0 <= j < |counters| :: (j in h) <==> counters[j])
      && (|counters| <= WORD_MOD ==> forall k, l | 0 <= k < l < |h| :: h[k] < h[l])
  {
    var w := TestFinished(counters).words;
    assert w[1..] == ToWords(SetIndices(counters, 0));
    HitsComplete(counters);
    if |counters| <= WORD_MOD {
      HitsExact(counters);
    }
  }

  lemma HitsComplete(counters: seq<bool>)
    ensures forall j | 0 <= j < |counters| && counters[j] :: ToWord(j) in ToWords(SetIndices(counters, 0))
  {
    var hits := SetIndices(counters, 0);
    var h := ToWords(hits);
    forall j | 0 <= j < |counters| && counters[j]
      ensures ToWord(j) in h
    {
      var k :| 0 <= k < |hits| && hits[k] == j;
      assert h[k] == ToWord(j);
    }
  }

  lemma HitsExact(counters: seq<bool>)
    requires |counters| <= WORD_MOD
    ensures var h := ToWords(SetIndices(counters, 0));
      && (forall k | 0 <= k < |h| :: h[k] < |counters| && counters[h[k]])
      && (forall j | 0 <= j < |counters| :: (j in h) <==> counters[j])
      && (forall k, l | 0 <= k < l < |h| :: h[k] < h[l])
  {
    var hits := SetIndices(counters, 0);
    var h := ToWords(hits);
    assert forall k | 0 <= k < |h| :: h[k] == hits[k];
    forall j | 0 <= j < |counters| && counters[j]
      ensures j in h
    {
      var k :| 0 <= k < |hits| && hits[k] == j;
      assert h[k] == j;
    }
  }

  lemma {:induction false} SetIndicesNone(c: seq<bool>, from: nat)
    requires from <= |c|
    requires forall j | 0 <= j < |c| :: !c[j]
    ensures SetIndices(c, from) == []
    decreases |c| - from
  {
    if from < |c| {
      SetIndicesNone(c, from + 1);
    }
  }

  /** Right after a test is finished, finishing another records no block. */
  lemma TestFinishedTwice(counters: seq<bool>)
    ensures TestFinished(TestFinished(counters).counters).words == [ENTRY]
  {
    var c := TestFinished(counters).counters;
    SetIndicesNone(c, 0);
    assert ToWords([]) == [];
    assert TestFinished(c).words == [ENTRY] + [];
  }

  /** The per-block function indices and the `name2index` map `emit_func_names_set` builds. */
  datatype Assignment = Assignment(table: seq<nat>, index: map<NamePtr, nat>)

  /** One more than the largest entry; 0 for no entries. */
  function Bound(s: seq<nat>): (b: nat)
    ensures forall i | 0 <= i < |s| :: s[i] < b
    decreases |s|
  {
    if s == [] then 0
    else
      var b := Bound(s[..|s| - 1]);
      assert forall i | 0 <= i < |s| - 1 :: s[..|s| - 1][i] == s[i];
      if s[|s| - 1] + 1 > b then s[|s| - 1] + 1 else b
  }

  /** One index per block, and the map holds exactly the pointers seen, each at its blocks' index. */
  ghost predicate AssignedShape(names: seq<NamePtr>, a: Assignment) {
    && |a.table| == |names|
    && |a.index| <= |names|
    && (forall i | 0 <= i < |names| :: names[i] in a.index && a.table[i] == a.index[names[i]])
  }

  /** The indices are 0..size-1, each owned by exactly one pointer and used by some block. */
  ghost predicate AssignedDense(a: Assignment) {
    && (forall n | n in a.index :: a.index[n] < |a.index|)
    && (forall n, m | n in a.index && m in a.index && a.index[n] == a.index[m] :: n == m)
    && (forall v | 0 <= v < |a.index| :: v in a.table)
    && Bound(a.table) == |a.index|
  }

  /** One past every index given to the blocks before block i. */
  function BoundBefore(t: seq<nat>, i: nat): nat
    requires i <= |t|
  {
    Bound(t[..i])
  }

  /** Order of first appearance: a new pointer gets one past every earlier index. */
  ghost predicate AssignedInOrder(names: seq<NamePtr>, a: Assignment)
    requires |a.table| == |names|
  {
    && (forall i {:trigger BoundBefore(a.table, i)} | 0 <= i < |names| && names[i] !in names[..i] ::
          a.table[i] == BoundBefore(a.table, i))
    && (forall i {:trigger BoundBefore(a.table, i)} | 0 <= i < |names| :: a.table[i] <= BoundBefore(a.table, i))
  }

  /** What the index loop of `emit_func_names_set` guarantees. */
  ghost predicate Assigned(names: seq<NamePtr>, a: Assignment) {
    AssignedShape(names, a) && AssignedDense(a) && AssignedInOrder(names, a)
  }

  /** One iteration of the index loop. */
  function Step(prev: Assignment, p: NamePtr): Assignment {
    if p in prev.index then Assignment(prev.table + [prev.index[p]], prev.index)
    else Assignment(prev.table + [|prev.index|], prev.index[p := |prev.index|])
  }

  /**
   * The index loop of `emit_func_names_set`: a pointer seen for the first
   * time gets the map's current size, a repeated one its earlier index.
   */
  function AssignIndices(names: seq<NamePtr>): (a: Assignment)
    ensures |a.table| == |names|
    decreases |names|
  {
    if names == [] then Assignment([], map[])
    else Step(AssignIndices(names[..|names| - 1]), names[|names| - 1])
  }

  /** The index loop establishes the shape, density and order of its result. */
  lemma {:induction false} AssignIndicesAssigned(names: seq<NamePtr>)
    ensures Assigned(names, AssignIndices(names))
    decreases |names|
  {
    if names != [] {
      var n := |names| - 1;
      var prev := AssignIndices(names[..n]);
      var a := AssignIndices(names);
      AssignIndicesAssigned(names[..n]);
      StepShape(names, prev, a);
      StepDense(names, prev, a);
      StepInOrder(names, prev, a);
    }
  }

  /** Every block's pointer is a key, and the block's entry is that key's index. */
  lemma AssignedTable(names: seq<NamePtr>)
    ensures var a := AssignIndices(names);
      forall i | 0 <= i < |names| :: names[i] in a.index && a.table[i] == a.index[names[i]]
  {
    AssignIndicesAssigned(names);
  }

  /** The indices are below the number of keys, which is at most the number of blocks, and distinct. */
  lemma AssignedIndex(names: seq<NamePtr>)
    ensures var a := AssignIndices(names);
      && |a.index| <= |names|
      && (forall n | n in a.index :: a.index[n] < |a.index|)
      && (forall n, m | n in a.index && m in a.index && a.index[n] == a.index[m] :: n == m)
  {
    AssignIndicesAssigned(names);
  }

  /** Every key is some block's pointer. */
  lemma AssignedKeys(names: seq<NamePtr>)
    ensures forall n | n in AssignIndices(names).index :: n in names
  {
    AssignIndicesAssigned(names);
    forall n | n in AssignIndices(names).index
      ensures n in names
    {
      AssignedKeysAreNames(names, AssignIndices(names), n);
    }
  }

  /** Every index below the number of keys is some block's entry. */
  lemma AssignedCover(names: seq<NamePtr>)
    ensures var a := AssignIndices(names);
      forall v | 0 <= v < |a.index| :: v in a.table
  {
    AssignIndicesAssigned(names);
  }

  lemma StepShape(names: seq<NamePtr>, prev: Assignment, a: Assignment)
    requires names != []
    requires AssignedShape(names[..|names| - 1], prev)
    requires a == Step(prev, names[|names| - 1])
    ensures AssignedShape(names, a)
  {
    var n := |names| - 1;
    var p := names[n];
    assert forall i | 0 <= i < n :: names[..n][i] == names[i];
  }

  /** Every key of the map is the pointer of some block. */
  lemma AssignedKeysAreNames(names: seq<NamePtr>, a: Assignment, n: NamePtr)
    requires AssignedShape(names, a) && AssignedDense(a)
    requires n in a.index
    ensures n in names
  {
    assert a.index[n] in a.table;
    var i :| 0 <= i < |a.table| && a.table[i] == a.index[n];
    assert a.index[names[i]] == a.index[n];
  }

  lemma StepDense(names: seq<NamePtr>, prev: Assignment, a: Assignment)
    requires names != []
    requires AssignedShape(names[..|names| - 1], prev) && AssignedDense(prev)
    requires a == Step(prev, names[|names| - 1])
    ensures AssignedDense(a)
  {
    StepCover(names, prev, a);
    StepKeys(prev, names[|names| - 1], a);
    StepBound(prev, names[|names| - 1], a);
  }

  /** A step keeps every index below the map's size and owned by one pointer. */
  lemma StepKeys(prev: Assignment, p: NamePtr, a: Assignment)
    requires forall n | n in prev.index :: prev.index[n] < |prev.index|
    requires forall n, m | n in prev.index && m in prev.index && prev.index[n] == prev.index[m] :: n == m
    requires a == Step(prev, p)
    ensures forall n | n in a.index :: a.index[n] < |a.index|
    ensures forall n, m | n in a.index && m in a.index && a.index[n] == a.index[m] :: n == m
  {
    if p !in prev.index {
      assert |a.index| == |prev.index| + 1;
      forall n, m | n in a.index && m in a.index && a.index[n] == a.index[m]
        ensures n == m
      {
        if n != p && m != p {
          assert prev.index[n] == prev.index[m];
        }
      }
    }
  }

  /** A step keeps the bound of the table equal to the map's size. */
  lemma StepBound(prev: Assignment, p: NamePtr, a: Assignment)
    requires forall n | n in prev.index :: prev.index[n] < |prev.index|
    requires Bound(prev.table) == |prev.index|
    requires a == Step(prev, p)
    ensures Bound(a.table) == |a.index|
  {
    if p in prev.index {
      BoundSnoc(prev.table, prev.index[p]);
    } else {
      BoundSnoc(prev.table, |prev.index|);
      assert |prev.index[p := |prev.index|]| == |prev.index| + 1;
    }
  }

  /** The bound after one more entry. */
  lemma BoundSnoc(s: seq<nat>, x: nat)
    ensures Bound(s + [x]) == if x + 1 > Bound(s) then x + 1 else Bound(s)
  {
    assert (s + [x])[..|s|] == s;
  }

  lemma StepCover(names: seq<NamePtr>, prev: Assignment, a: Assignment)
    requires names != []
    requires forall v | 0 <= v < |prev.index| :: v in prev.table
    requires a == Step(prev, names[|names| - 1])
    ensures forall v | 0 <= v < |a.index| :: v in a.table
  {
    var n := |prev.table|;
    forall v | 0 <= v < |a.index|
      ensures v in a.table
    {
      if v < |prev.index| {
        assert v in prev.table;
        var i :| 0 <= i < |prev.table| && prev.table[i] == v;
        assert a.table[i] == v;
      } else {
        assert a.table[n] == v;
      }
    }
  }

  lemma StepInOrder(names: seq<NamePtr>, prev: Assignment, a: Assignment)
    requires names != []
    requires Assigned(names[..|names| - 1], prev)
    requires a == Step(prev, names[|names| - 1])
    requires |a.table| == |names|
    ensures AssignedInOrder(names, a)
  {
    var n := |names| - 1;
    var p := names[n];
    assert a.table[..n] == prev.table;
    forall i | 0 <= i < |names|
      ensures names[i] !in names[..i] ==> a.table[i] == BoundBefore(a.table, i)
      ensures a.table[i] <= BoundBefore(a.table, i)
    {
      if i < n {
        assert names[..i] == names[..n][..i];
        assert a.table[..i] == prev.table[..i];
        assert a.table[i] == prev.table[i];
        assert BoundBefore(a.table, i) == BoundBefore(prev.table, i);
      } else {
        assert BoundBefore(a.table, i) == Bound(prev.table) == |prev.index|;
        assert names[..n] == names[..|names| - 1];
        if p in prev.index {
          AssignedKeysAreNames(names[..n], prev, p);
        }
      }
    }
  }

  /** No element occurs twice. */
  predicate Distinct<T(==)>(s: seq<T>) {
    forall i, j | 0 <= i < j < |s| :: s[i] != s[j]
  }

  /** `order` lists every key of `index` exactly once: one iteration order of the `unordered_map`. */
  predicate Enumerates(order: seq<NamePtr>, index: map<NamePtr, nat>) {
    && (forall n | n in index :: n in order)
    && (forall k | 0 <= k < |order| :: order[k] in index)
    && Distinct(order)
  }

  /** The name loop: for each pointer in iteration order, its index word and its string. */
  function NameSection(e: Endian, order: seq<NamePtr>, index: map<NamePtr, nat>): (out: Bytes)
    requires forall k | 0 <= k < |order| :: order[k] in index
    ensures |out| % 4 == 0
    ensures |out| >= 12 * |order|
    decreases |order|
  {
    if order == [] then []
    else
      var pair := WordBytes(e, ToWord(index[order[0]])) + WriteString(e, order[0].text);
      var more := NameSection(e, order[1..], index);
      NamePairAligned(e, ToWord(index[order[0]]), order[0].text);
      AlignedConcat(pair, more);
      pair + more
  }

  /** One (index, string) pair is word-aligned and at least three words long. */
  lemma NamePairAligned(e: Endian, w: word, s: Bytes)
    ensures |WordBytes(e, w) + WriteString(e, s)| % 4 == 0
    ensures |WordBytes(e, w) + WriteString(e, s)| >= 12
  {
    AlignedConcat(WordBytes(e, w), WriteString(e, s));
  }

  /** The words `emit_func_names_set` writes before the names: INDICES, one index per block, NAMES. */
  function IndexWords(table: seq<nat>): (ws: seq<word>)
    ensures |ws| == |table| + 2
  {
    [INDICES] + ToWords(table) + [NAMES]
  }

  /** `emit_func_names_set` with `order` as the map's iteration order. */
  function EmitFuncNamesSet(e: Endian, names: seq<NamePtr>, order: seq<NamePtr>): (out: Bytes)
    requires Enumerates(order, AssignIndices(names).index)
    ensures |out| % 4 == 0
    ensures |out| >= 4 * (|names| + 2) + 12 * |order|
    ensures out[..4] == WordBytes(e, INDICES)
  {
    var a := AssignIndices(names);
    var section := NameSection(e, order, a.index);
    IndexWordsLayout(e, a.table, section);
    AlignedConcat(WordsBytes(e, IndexWords(a.table)), section);
    WordsBytes(e, IndexWords(a.table)) + section
  }

  /** INDICES, one word per table entry, NAMES, then whatever follows. */
  lemma IndexWordsLayout(e: Endian, table: seq<nat>, section: Bytes)
    ensures var out := WordsBytes(e, IndexWords(table)) + section;
      var k := |table| + 2;
      && |out| == 4 * k + |section|
      && out[..4] == WordBytes(e, INDICES)
      && (forall i | 0 <= i < |table| :: out[4 * (i + 1)..4 * (i + 2)] == WordBytes(e, ToWord(table[i])))
      && out[4 * (k - 1)..4 * k] == WordBytes(e, NAMES)
      && out[4 * k..] == section
  {
    var ws := IndexWords(table);
    WordsBytesThenAt(e, ws, section, 0);
    forall i | 0 <= i < |table|
      ensures (WordsBytes(e, ws) + section)[4 * (i + 1)..4 * (i + 2)] == WordBytes(e, ToWord(table[i]))
    {
      WordsBytesThenAt(e, ws, section, i + 1);
      assert ws[i + 1] == ToWords(table)[i];
    }
    WordsBytesThenAt(e, ws, section, |ws| - 1);
  }

  /**
   * The layout of `emit_func_names_set`: INDICES, then for block i the index
   * of block i's function, then NAMES, then the name section.
   */
  lemma EmitFuncNamesSetLayout(e: Endian, names: seq<NamePtr>, order: seq<NamePtr>)
    requires Enumerates(order, AssignIndices(names).index)
    ensures var out := EmitFuncNamesSet(e, names, order);
      var a := AssignIndices(names);
      var k := |names| + 2;
      && out[..4] == WordBytes(e, INDICES)
      && (forall i | 0 <= i < |names| ::
            names[i] in a.index && out[4 * (i + 1)..4 * (i + 2)] == WordBytes(e, ToWord(a.index[names[i]])))
      && out[4 * (k - 1)..4 * k] == WordBytes(e, NAMES)
      && out[4 * k..] == NameSection(e, order, a.index)
  {
    var a := AssignIndices(names);
    IndexWordsLayout(e, a.table, NameSection(e, order, a.index));
    AssignedTable(names);
  }

  /** The index words of the name section, in iteration order. */
  function SectionIndices(order: seq<NamePtr>, index: map<NamePtr, nat>): (r: seq<nat>)
    requires forall k | 0 <= k < |order| :: order[k] in index
    ensures |r| == |order|
    ensures forall k | 0 <= k < |order| :: r[k] == index[order[k]]
  {
    seq(|order|, k requires 0 <= k < |order| => index[order[k]])
  }

  /**
   * The name section pairs every distinct name once with its index, and the
   * indices it writes are exactly 0..k-1, each once.
   */
  lemma NameSectionIndices(names: seq<NamePtr>, order: seq<NamePtr>)
    requires Enumerates(order, AssignIndices(names).index)
    ensures |order| == |AssignIndices(names).index|
    ensures var ix := SectionIndices(order, AssignIndices(names).index);
      && (forall k | 0 <= k < |ix| :: ix[k] < |ix|)
      && (forall k, l | 0 <= k < l < |ix| :: ix[k] != ix[l])
      && (forall v | 0 <= v < |ix| :: v in ix)
  {
    EnumeratesSize(order, AssignIndices(names).index);
    AssignedIndex(names);
    SectionIndicesCover(names, order);
  }

  /** An enumeration of a map's keys is as long as the map. */
  lemma EnumeratesSize<K>(order: seq<K>, index: map<K, nat>)
    requires forall n | n in index :: n in order
    requires forall k | 0 <= k < |order| :: order[k] in index
    requires Distinct(order)
    ensures |order| == |index|
  {
    DistinctCard(order);
    assert index.Keys == set k | 0 <= k < |order| :: order[k];
  }

  lemma SectionIndicesCover(names: seq<NamePtr>, order: seq<NamePtr>)
    requires Enumerates(order, AssignIndices(names).index)
    ensures forall v | 0 <= v < |AssignIndices(names).index| :: v in SectionIndices(order, AssignIndices(names).index)
  {
    var a := AssignIndices(names);
    var ix := SectionIndices(order, a.index);
    AssignedTable(names);
    AssignedCover(names);
    forall v | 0 <= v < |a.index|
      ensures v in ix
    {
      assert v in a.table;
      var i :| 0 <= i < |a.table| && a.table[i] == v;
      var k :| 0 <= k < |order| && order[k] == names[i];
      assert ix[k] == v;
    }
  }

  lemma {:induction false} DistinctCard<K>(order: seq<K>)
    requires Distinct(order)
    ensures |set k | 0 <= k < |order| :: order[k]| == |order|
    decreases |order|
  {
    if order != [] {
      var n := |order| - 1;
      DistinctCard(order[..n]);
      var s := set k | 0 <= k < n :: order[..n][k];
      assert (set k | 0 <= k < |order| :: order[k]) == s + {order[n]};
      assert order[n] !in s;
    }
  }

  /** The bytes of every finished test, one after the other. */
  function TestsBytes(e: Endian, snapshots: seq<seq<bool>>): (out: Bytes)
    ensures |out| % 4 == 0
    ensures |out| >= 4 * |snapshots|
    ensures snapshots != [] ==> out[..4] == WordBytes(e, ENTRY)
    decreases |snapshots|
  {
    if snapshots == [] then []
    else
      var first := WordsBytes(e, TestFinished(snapshots[0]).words);
      var more := TestsBytes(e, snapshots[1..]);
      WordsBytesThenAt(e, TestFinished(snapshots[0]).words, more, 0);
      AlignedConcat(first, more);
      first + more
  }

  /**
   * A whole report: one `tinycoverage_test_finished` per snapshot of the
   * counters, then shutdown's `emit_func_names_set`, then the zero word the
   * final `ftruncate` keeps past the end of what was written.
   */
  function Session(e: Endian, snapshots: seq<seq<bool>>, names: seq<NamePtr>, order: seq<NamePtr>): (out: Bytes)
    requires Enumerates(order, AssignIndices(names).index)
    ensures |out| % 4 == 0
    ensures |out| >= 4 * (|snapshots| + |names| + 3)
    ensures snapshots != [] ==> out[..4] == WordBytes(e, ENTRY)
    ensures snapshots == [] ==> out[..4] == WordBytes(e, INDICES)
    ensures out[|out| - 4..] == WordBytes(e, 0)
  {
    var tests := TestsBytes(e, snapshots);
    var tail := EmitFuncNamesSet(e, names, order);
    AlignedConcat(tests, tail);
    AlignedConcat(tests + tail, WordBytes(e, 0));
    tests + tail + WordBytes(e, 0)
  }
}
