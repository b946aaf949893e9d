/**
 * The top-level join of parser.py: every global block index gets the index
 * of its block inside its own function, derived only from runs of equal
 * function indices in the table, and every hit becomes (name, file, lines).
 */
module Correlate {
  import opened Wrappers
  import opened Wire
  import opened TcnoParser
  import Runtime

  /**
   * Relative block index: how many entries before position i belong to the
   * same run of equal entries. When each function's blocks sit next to each
   * other in the table, that is the block's index inside its function
   * (RelIndexWithinFunction).
   */
  function RelIndex<T(==)>(table: seq<T>): (rel: seq<nat>)
    ensures |rel| == |table|
    ensures forall i | 0 <= i < |table| :: rel[i] <= i
    ensures forall i, j | 0 <= i < |table| && i - rel[i] <= j <= i :: table[j] == table[i]
    ensures forall i | 0 <= i < |table| && rel[i] < i :: table[i - rel[i] - 1] != table[i]
    decreases |table|
  {
    if table == [] then []
    else
      var n := |table| - 1;
      var prev := RelIndex(table[..n]);
      assert forall i | 0 <= i < n :: table[..n][i] == table[i];
      prev + [if n > 0 && table[n - 1] == table[n] then prev[n - 1] + 1 else 0]
  }

  /** The rule as a recurrence: 0 at a run's start, one more than the previous entry inside a run. */
  lemma RelIndexRecurrence<T>(table: seq<T>, i: nat)
    requires 0 < i < |table|
    ensures RelIndex(table)[0] == 0
    ensures RelIndex(table)[i] == if table[i - 1] == table[i] then RelIndex(table)[i - 1] + 1 else 0
  {
    var r := RelIndex(table);
    if table[i - 1] == table[i] {
      if r[i] > r[i - 1] + 1 {
        // the run ending at i would cover the entry before the run ending at
        // i - 1, which differs from table[i - 1] == table[i]
        assert false;
      } else if r[i] < r[i - 1] + 1 {
        // the run ending at i - 1 covers the entry before the run ending at
        // i, which then equals table[i - 1] == table[i]
        assert false;
      }
    } else if r[i] > 0 {
      // a non-empty run ending at i contains table[i - 1]
      assert false;
    }
  }

  /** Every function's blocks sit next to each other: no other function's block between two of them. */
  predicate Contiguous<T(==)>(names: seq<T>) {
    forall i, j, k | 0 <= i < j < k < |names| && names[i] == names[k] :: names[j] == names[i]
  }

  /**
   * On the table `emit_func_names_set` writes, with contiguous functions,
   * block i's relative index counts the blocks of its function before it:
   * the blocks from i - rel[i] to i all belong to its function and none
   * before them does.
   */
  lemma RelIndexWithinFunction(names: seq<Runtime.NamePtr>, i: nat)
    requires i < |names| && Contiguous(names)
    ensures var rel := RelIndex(Runtime.AssignIndices(names).table);
      && |rel| == |names|
      && (forall j | i - rel[i] <= j <= i :: names[j] == names[i])
      && names[i] !in names[..i - rel[i]]
  {
    var a := Runtime.AssignIndices(names);
    Runtime.AssignedTable(names);
    Runtime.AssignedIndex(names);
    forall j, k | 0 <= j < |names| && 0 <= k < |names|
      ensures a.table[j] == a.table[k] <==> names[j] == names[k]
    {
      if a.table[j] == a.table[k] {
        assert a.index[names[j]] == a.index[names[k]];
      }
    }
    RunWithinGroup(names, a.table, i);
  }

  /** The same for any table whose entries are equal exactly where the names are. */
  lemma RunWithinGroup<T>(names: seq<T>, t: seq<nat>, i: nat)
    requires |t| == |names| && i < |names| && Contiguous(names)
    requires forall j, k | 0 <= j < |names| && 0 <= k < |names| :: t[j] == t[k] <==> names[j] == names[k]
    ensures var rel := RelIndex(t);
      && (forall j | i - rel[i] <= j <= i :: names[j] == names[i])
      && names[i] !in names[..i - rel[i]]
  {
    var rel := RelIndex(t);
    var start := i - rel[i];
    forall j | start <= j <= i
      ensures names[j] == names[i]
    {
      assert t[j] == t[i];
    }
    forall j | 0 <= j < start
      ensures names[..start][j] != names[i]
    {
      // the block just before the run belongs to another function, and
      // contiguity carries that back to every earlier block
      assert t[start - 1] != t[i];
      assert names[..start][j] == names[j];
    }
  }

  lemma RelIndexExample()
    ensures RelIndex([10, 10, 10, 20, 20]) == [0, 1, 2, 0, 1]
  {
    var t := [10, 10, 10, 20, 20];
    RelIndexRecurrence(t, 1);
    RelIndexRecurrence(t, 2);
    RelIndexRecurrence(t, 3);
    RelIndexRecurrence(t, 4);
  }

  /**
   * parser.py:123-127 as written: enumerating the dict `bb_to_func_idx`
   * yields its keys, so the previous entry is compared with the position
   * i itself instead of with the entry at i.
   */
  function RelIndexAsWritten(table: seq<word>): (rel: seq<nat>)
    ensures |rel| == |table|
    ensures forall i | 0 <= i < |table| :: rel[i] <= i
    decreases |table|
  {
    if table == [] then []
    else
      var n := |table| - 1;
      var prev := RelIndexAsWritten(table[..n]);
      prev + [if n > 0 && table[n - 1] == n then prev[n - 1] + 1 else 0]
  }

  /** Two blocks of one function get the same relative index as written. */
  lemma RelIndexAsWrittenMergesBlocks()
    ensures RelIndexAsWritten([0, 0]) == [0, 0]
    ensures RelIndex([0, 0]) == [0, 1]
  {
    var t: seq<word> := [0, 0];
    assert t[..1] == [0];
    assert RelIndexAsWritten(t[..1]) == [0];
    assert t[0] != 1;
    assert RelIndexAsWritten(t) == RelIndexAsWritten(t[..1]) + [0];
    assert RelIndexAsWritten(t) == [0, 0];
    assert t == [0, 0];
    RelIndexRecurrence([0, 0], 1);
  }

  /** As written, the first block of a second function continues the first function's run. */
  lemma RelIndexAsWrittenJoinsFunctions()
    ensures RelIndexAsWritten([1, 0]) == [0, 1]
    ensures RelIndex([1, 0]) == [0, 0]
  {
    assert [1, 0][..1] == [1];
    assert RelIndexAsWritten([1]) == [0];
    RelIndexRecurrence([1, 0], 1);
  }

  /** One correlated hit: function name, its source file and the block's lines. */
  datatype Hit = Hit(name: Bytes, src: Bytes, lines: seq<int>)

  /** The key a lookup missed, in the order the lookups happen. */
  datatype LookupError =
    | MissingBlock(bb: word)
    | MissingName(funcIdx: word)
    | MissingSource(name: Bytes)
    | MissingFunction(name: Bytes)
    | MissingLines(name: Bytes, rel: nat)

  /** The lookup chain for one hit; the first missing key aborts. */
  function Resolve(h: word, table: seq<word>, rel: seq<nat>, names: map<word, Bytes>, lm: LineMap): (r: Result<Hit, LookupError>)
    requires |rel| == |table|
    ensures r.Success? <==>
      && h < |table|
      && table[h] in names
      && names[table[h]] in lm.funcToSrc
      && names[table[h]] in lm.funcToBb
      && rel[h] in lm.funcToBb[names[table[h]]]
    ensures r.Success? ==>
      var name := names[table[h]];
      r.value == Hit(name, lm.funcToSrc[name], lm.funcToBb[name][rel[h]])
    ensures Consistent(lm) ==> !r.Failure? || !r.error.MissingFunction?
  {
    if h >= |table| then Failure(MissingBlock(h))
    else
      var funcIdx := table[h];
      if funcIdx !in names then Failure(MissingName(funcIdx))
      else
        var name := names[funcIdx];
        if name !in lm.funcToSrc then Failure(MissingSource(name))
        else if name !in lm.funcToBb then Failure(MissingFunction(name))
        else if rel[h] !in lm.funcToBb[name] then Failure(MissingLines(name, rel[h]))
        else Success(Hit(name, lm.funcToSrc[name], lm.funcToBb[name][rel[h]]))
  }

  function ResolveAll(test: seq<word>, table: seq<word>, rel: seq<nat>, names: map<word, Bytes>, lm: LineMap): (r: Result<seq<Hit>, LookupError>)
    requires |rel| == |table|
    ensures r.Success? <==> forall j | 0 <= j < |test| :: Resolve(test[j], table, rel, names, lm).Success?
    ensures r.Success? ==> |r.value| == |test|
    ensures r.Success? ==> forall j | 0 <= j < |test| :: r.value[j] == Resolve(test[j], table, rel, names, lm).value
    decreases |test|
  {
    if test == [] then Success([])
    else
      var hit :- Resolve(test[0], table, rel, names, lm);
      var more :- ResolveAll(test[1..], table, rel, names, lm);
      assert forall j | 1 <= j < |test| :: test[j] == test[1..][j - 1];
      Success([hit] + more)
  }

  /**
   * The correlation loop with a given relative index: one hit per recorded
   * block, tests in order and hits in order; any missing key aborts the run.
   */
  function CorrelateWith(tests: seq<seq<word>>, table: seq<word>, rel: seq<nat>, names: map<word, Bytes>, lm: LineMap): (r: Result<seq<seq<Hit>>, LookupError>)
    requires |rel| == |table|
    ensures r.Success? <==>
      forall t, j | 0 <= t < |tests| && 0 <= j < |tests[t]| :: Resolve(tests[t][j], table, rel, names, lm).Success?
    ensures r.Success? ==> |r.value| == |tests|
    ensures r.Success? ==> forall t | 0 <= t < |tests| :: |r.value[t]| == |tests[t]|
    ensures r.Success? ==> forall t, j | 0 <= t < |tests| && 0 <= j < |tests[t]| ::
      r.value[t][j] == Resolve(tests[t][j], table, rel, names, lm).value
    decreases |tests|
  {
    if tests == [] then Success([])
    else
      var first := ResolveAll(tests[0], table, rel, names, lm);
      if first.Failure? then
        assert !Resolve(tests[0][0], table, rel, names, lm).Success? || exists j | 0 <= j < |tests[0]| :: !Resolve(tests[0][j], table, rel, names, lm).Success?;
        Failure(first.error)
      else
        var more :- CorrelateWith(tests[1..], table, rel, names, lm);
        assert forall t | 1 <= t < |tests| :: tests[t] == tests[1..][t - 1];
        Success([first.value] + more)
  }

  /** The correlation with the intended relative index. */
  function Correlate(tests: seq<seq<word>>, table: seq<word>, names: map<word, Bytes>, lm: LineMap): (r: Result<seq<seq<Hit>>, LookupError>)
    ensures r.Success? ==> |r.value| == |tests|
    ensures r.Success? ==> forall t | 0 <= t < |tests| :: |r.value[t]| == |tests[t]|
    ensures r.Success? ==> forall t, j | 0 <= t < |tests| && 0 <= j < |tests[t]| ::
      var h := tests[t][j];
      && h < |table|
      && table[h] in names
      && r.value[t][j].name == names[table[h]]
      && r.value[t][j].name in lm.funcToSrc
      && r.value[t][j].src == lm.funcToSrc[r.value[t][j].name]
      && r.value[t][j].name in lm.funcToBb
      && RelIndex(table)[h] in lm.funcToBb[r.value[t][j].name]
      && r.value[t][j].lines == lm.funcToBb[r.value[t][j].name][RelIndex(table)[h]]
  {
    var r := CorrelateWith(tests, table, RelIndex(table), names, lm);
    r
  }

  /** The correlation exactly as parser.py runs it. */
  function CorrelateAsWritten(tests: seq<seq<word>>, table: seq<word>, names: map<word, Bytes>, lm: LineMap): (r: Result<seq<seq<Hit>>, LookupError>)
    ensures r.Success? ==> |r.value| == |tests|
    ensures r.Success? ==> forall t | 0 <= t < |tests| :: |r.value[t]| == |tests[t]|
    ensures r.Success? ==> forall t, j | 0 <= t < |tests| && 0 <= j < |tests[t]| ::
      var h := tests[t][j];
      && h < |table|
      && table[h] in names
      && r.value[t][j].name == names[table[h]]
      && r.value[t][j].name in lm.funcToSrc && r.value[t][j].src == lm.funcToSrc[r.value[t][j].name]
      && r.value[t][j].name in lm.funcToBb
      && RelIndexAsWritten(table)[h] in lm.funcToBb[r.value[t][j].name]
      && r.value[t][j].lines == lm.funcToBb[r.value[t][j].name][RelIndexAsWritten(table)[h]]
  {
    var r := CorrelateWith(tests, table, RelIndexAsWritten(table), names, lm);
    r
  }
}
