/**
 * Decoder of the text line maps: every line is `file function block line*`,
 * folded into function -> source file and function -> block -> sorted lines.
 */
module TcnoParser {
  import opened Wrappers
  import opened Wire

  /** One whitespace-separated token: its text and, when `int()` accepts it, its value. */
  datatype Token = Token(text: Bytes, num: Option<int>)

  type Line = seq<Token>

  /** `func_to_src` and `func_to_bb` of one `TcnoParser`. */
  datatype LineMap = LineMap(funcToSrc: map<Bytes, Bytes>, funcToBb: map<Bytes, map<int, seq<int>>>)

  const EmptyLineMap := LineMap(map[], map[])

  /** Why a line was refused: fewer than three tokens, or a token `int()` rejects. */
  datatype LineError = TooFewTokens | NotAnInteger

  /** The line a read stopped at, its error, and the state the earlier lines left behind. */
  datatype ItemsFailure = ItemsFailure(line: nat, error: LineError, partial: LineMap)

  /** Both tables are keyed by the same functions: every line writes both. */
  predicate Consistent(lm: LineMap) {
    lm.funcToSrc.Keys == lm.funcToBb.Keys
  }

  predicate SortedAsc(xs: seq<int>) {
    forall i, j | 0 <= i < j < |xs| :: xs[i] <= xs[j]
  }

  function Insert(x: int, xs: seq<int>): (r: seq<int>)
    requires SortedAsc(xs)
    ensures SortedAsc(r)
    ensures multiset(r) == multiset(xs) + multiset{x}
    decreases |xs|
  {
    if xs == [] || x <= xs[0] then [x] + xs
    else
      var rest := Insert(x, xs[1..]);
      InsertBehindHead(x, xs, rest);
      [xs[0]] + rest
  }

  /** Keeping the head in front of the insertion into the tail keeps the result sorted. */
  lemma InsertBehindHead(x: int, xs: seq<int>, rest: seq<int>)
    requires SortedAsc(xs) && xs != [] && xs[0] < x
    requires SortedAsc(rest) && multiset(rest) == multiset(xs[1..]) + multiset{x}
    ensures SortedAsc([xs[0]] + rest)
    ensures multiset([xs[0]] + rest) == multiset(xs) + multiset{x}
  {
    assert xs == [xs[0]] + xs[1..];
    assert multiset([x] + xs[1..]) == multiset(xs[1..]) + multiset{x};
    PermutationLowerBound(xs[0], rest, [x] + xs[1..]);
  }

  /** A bound on every element of a sequence bounds every element of its permutations. */
  lemma PermutationLowerBound(lo: int, a: seq<int>, b: seq<int>)
    requires multiset(a) == multiset(b)
    requires forall j | 0 <= j < |b| :: lo <= b[j]
    ensures forall i | 0 <= i < |a| :: lo <= a[i]
  {
    forall i | 0 <= i < |a|
      ensures lo <= a[i]
    {
      assert a[i] in multiset(b);
      var j :| 0 <= j < |b| && b[j] == a[i];
    }
  }

  /** Python's `sorted` on integers: an ascending permutation. */
  function Sort(xs: seq<int>): (r: seq<int>)
    ensures SortedAsc(r)
    ensures multiset(r) == multiset(xs)
    decreases |xs|
  {
    if xs == [] then []
    else
      assert xs == [xs[0]] + xs[1..];
      Insert(xs[0], Sort(xs[1..]))
  }

  predicate AllIntegers(toks: seq<Token>) {
    forall i | 0 <= i < |toks| :: toks[i].num.Some?
  }

  function Ints(toks: seq<Token>): (r: seq<int>)
    requires AllIntegers(toks)
    ensures |r| == |toks|
    ensures forall i | 0 <= i < |toks| :: r[i] == toks[i].num.value
  {
    seq(|toks|, i requires 0 <= i < |toks| => toks[i].num.value)
  }

  /** The line names function `f`, i.e. it has the three leading fields. */
  predicate Names(line: Line, f: Bytes) {
    |line| >= 3 && line[1].text == f
  }

  predicate WritesBlock(line: Line, f: Bytes, b: int) {
    Names(line, f) && line[2].num == Some(b)
  }

  /**
   * One line of `read_items`: the source file of the function is
   * overwritten, its block gets the sorted line numbers, and nothing else
   * changes; a malformed line changes nothing.
   */
  function ReadLine(lm: LineMap, line: Line): (r: Result<LineMap, LineError>)
    ensures |line| < 3 ==> r == Failure(TooFewTokens)
    ensures r.Success? <==> |line| >= 3 && AllIntegers(line[3..]) && line[2].num.Some?
    ensures r.Success? ==>
      var f := line[1].text;
      var b := line[2].num.value;
      && r.value.funcToSrc == lm.funcToSrc[f := line[0].text]
      && f in r.value.funcToBb
      && b in r.value.funcToBb[f]
      && SortedAsc(r.value.funcToBb[f][b])
      && multiset(r.value.funcToBb[f][b]) == multiset(Ints(line[3..]))
      && (forall b' | b' != b ::
            (b' in r.value.funcToBb[f] <==> f in lm.funcToBb && b' in lm.funcToBb[f])
            && (b' in r.value.funcToBb[f] ==> r.value.funcToBb[f][b'] == lm.funcToBb[f][b']))
      && (forall g | g != f ::
            (g in r.value.funcToBb <==> g in lm.funcToBb)
            && (g in lm.funcToBb ==> r.value.funcToBb[g] == lm.funcToBb[g]))
    ensures r.Success? && Consistent(lm) ==> Consistent(r.value)
  {
    if |line| < 3 then Failure(TooFewTokens)
    else if !AllIntegers(line[3..]) || line[2].num.None? then Failure(NotAnInteger)
    else
      var fileName := line[0].text;
      var funcName := line[1].text;
      var lineset := Sort(Ints(line[3..]));
      var bbIndex := line[2].num.value;
      var blocks := if funcName in lm.funcToBb then lm.funcToBb[funcName][bbIndex := lineset]
                    else map[bbIndex := lineset];
      Success(LineMap(lm.funcToSrc[funcName := fileName], lm.funcToBb[funcName := blocks]))
  }

  /** `read_items` over one item's lines; the first malformed line stops it. */
  function ReadItems(lm: LineMap, lines: seq<Line>): (r: Result<LineMap, ItemsFailure>)
    ensures r.Failure? ==> r.error.line < |lines| && ReadLine(r.error.partial, lines[r.error.line]) == Failure(r.error.error)
    ensures Consistent(lm) && r.Success? ==> Consistent(r.value)
    ensures Consistent(lm) && r.Failure? ==> Consistent(r.error.partial)
    decreases |lines|
  {
    if lines == [] then Success(lm)
    else
      match ReadLine(lm, lines[0])
      case Failure(err) => Failure(ItemsFailure(0, err, lm))
      case Success(lm') =>
        match ReadItems(lm', lines[1..])
        case Success(done) => Success(done)
        case Failure(f) => Failure(f.(line := f.line + 1))
  }

  /** The state left at a failure is what the lines before the failing one produced. */
  lemma {:induction false} ReadItemsFailurePrefix(lm: LineMap, lines: seq<Line>)
    requires ReadItems(lm, lines).Failure?
    ensures ReadItems(lm, lines[..ReadItems(lm, lines).error.line]) == Success(ReadItems(lm, lines).error.partial)
    decreases |lines|
  {
    var k := ReadItems(lm, lines).error.line;
    if k > 0 {
      var lm' := ReadLine(lm, lines[0]).value;
      ReadItemsFailurePrefix(lm', lines[1..]);
      assert lines[..k][1..] == lines[1..][..k - 1];
    }
  }

  /** Lines that do not name `f` leave `f`'s file and blocks as they were. */
  lemma {:induction false} ReadItemsUntouched(lm: LineMap, lines: seq<Line>, f: Bytes)
    requires ReadItems(lm, lines).Success?
    requires forall k | 0 <= k < |lines| :: !Names(lines[k], f)
    ensures var r := ReadItems(lm, lines).value;
      && (f in r.funcToSrc <==> f in lm.funcToSrc)
      && (f in lm.funcToSrc ==> r.funcToSrc[f] == lm.funcToSrc[f])
      && (f in r.funcToBb <==> f in lm.funcToBb)
      && (f in lm.funcToBb ==> r.funcToBb[f] == lm.funcToBb[f])
    decreases |lines|
  {
    if lines != [] {
      ReadItemsUntouched(ReadLine(lm, lines[0]).value, lines[1..], f);
    }
  }

  /** Lines that do not write block `b` of `f` leave that block's lines as they were. */
  lemma {:induction false} ReadItemsBlockUntouched(lm: LineMap, lines: seq<Line>, f: Bytes, b: int)
    requires ReadItems(lm, lines).Success?
    requires forall k | 0 <= k < |lines| :: !WritesBlock(lines[k], f, b)
    requires f in lm.funcToBb && b in lm.funcToBb[f]
    ensures var r := ReadItems(lm, lines).value;
      f in r.funcToBb && b in r.funcToBb[f] && r.funcToBb[f][b] == lm.funcToBb[f][b]
    decreases |lines|
  {
    if lines != [] {
      ReadItemsBlockUntouched(ReadLine(lm, lines[0]).value, lines[1..], f, b);
    }
  }

  /** Lines that do not write block `b` of `f` do not create it either. */
  lemma {:induction false} ReadItemsBlockAbsent(lm: LineMap, lines: seq<Line>, f: Bytes, b: int)
    requires ReadItems(lm, lines).Success?
    requires forall k | 0 <= k < |lines| :: !WritesBlock(lines[k], f, b)
    requires f !in lm.funcToBb || b !in lm.funcToBb[f]
    ensures var r := ReadItems(lm, lines).value;
      f !in r.funcToBb || b !in r.funcToBb[f]
    decreases |lines|
  {
    if lines != [] {
      ReadItemsBlockAbsent(ReadLine(lm, lines[0]).value, lines[1..], f, b);
    }
  }

  /** `func_to_src` is last-write-wins: the last line naming `f` decides its file. */
  lemma {:induction false} ReadItemsLastSource(lm: LineMap, lines: seq<Line>, j: nat, f: Bytes)
    requires ReadItems(lm, lines).Success?
    requires j < |lines| && Names(lines[j], f)
    requires forall k | j < k < |lines| :: !Names(lines[k], f)
    ensures f in ReadItems(lm, lines).value.funcToSrc
    ensures ReadItems(lm, lines).value.funcToSrc[f] == lines[j][0].text
    decreases |lines|
  {
    var lm' := ReadLine(lm, lines[0]).value;
    if j == 0 {
      ReadItemsUntouched(lm', lines[1..], f);
    } else {
      ReadItemsLastSource(lm', lines[1..], j - 1, f);
    }
  }

  /**
   * `func_to_bb[f][b]` is last-write-wins: the last line writing block `b`
   * of `f` decides its lines, sorted ascending.
   */
  lemma {:induction false} ReadItemsLastBlock(lm: LineMap, lines: seq<Line>, j: nat, f: Bytes, b: int)
    requires ReadItems(lm, lines).Success?
    requires j < |lines| && WritesBlock(lines[j], f, b) && AllIntegers(lines[j][3..])
    requires forall k | j < k < |lines| :: !WritesBlock(lines[k], f, b)
    ensures f in ReadItems(lm, lines).value.funcToBb && b in ReadItems(lm, lines).value.funcToBb[f]
    ensures SortedAsc(ReadItems(lm, lines).value.funcToBb[f][b])
    ensures multiset(ReadItems(lm, lines).value.funcToBb[f][b]) == multiset(Ints(lines[j][3..]))
    decreases |lines|
  {
    if j == 0 {
      ReadItemsBlockUntouched(ReadLine(lm, lines[0]).value, lines[1..], f, b);
    } else {
      var lm' := ReadItemsStep(lm, lines);
      assert lines[1..][j - 1] == lines[j];
      ReadItemsLastBlock(lm', lines[1..], j - 1, f, b);
    }
  }

  /** A successful read is the read of the remaining lines from the state the first line leaves. */
  lemma ReadItemsStep(lm: LineMap, lines: seq<Line>) returns (lm': LineMap)
    requires lines != [] && ReadItems(lm, lines).Success?
    ensures ReadItems(lm, lines) == ReadItems(lm', lines[1..])
  {
    lm' := ReadLine(lm, lines[0]).value;
  }
}
