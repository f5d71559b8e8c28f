/** The strict trace comparator: rows match in order, except that a dispatch-removed branch of the expected trace has no row. */
module CompareState {
  import opened Wrappers
  import opened Integers

  /** Program counter, instruction, then the register fields. */
  type Row = seq<nat>

  datatype Mismatch = ShortRow | FieldCount(row: nat) | Field(row: nat, field: nat) | Missing(row: nat) | Extra(row: nat)

  /** b, bc, bclr or bcctr without link or counter decrement. */
  predicate RemovableBranch(insn: nat) {
    var op, xo := insn / 0x400_0000, insn / 2 % 1024;
    var branch := op == 16 || op == 18 || (op == 19 && (xo == 16 || xo == 528));
    branch && insn % 2 == 0 && (op == 18 || insn / 0x80_0000 % 2 == 1)
  }

  /** In the instruction's fields: an unconditional branch, or a conditional one with the no-decrement bit of BO, never linking. */
  lemma RemovableFields(op: nat, bo: nat, bi: nat, mid: nat, xo: nat, link: nat)
    requires op < 64 && bo < 32 && bi < 32 && mid < 32 && xo < 1024 && link < 2
    ensures RemovableBranch(op * 0x400_0000 + bo * 0x20_0000 + bi * 0x1_0000 + mid * 0x800 + xo * 2 + link)
            <==> link == 0 && (op == 18 || ((op == 16 || (op == 19 && (xo == 16 || xo == 528))) && bo / 4 % 2 == 1))
  {
    var low := mid * 0x800 + xo * 2 + link;
    var insn := op * 0x400_0000 + bo * 0x20_0000 + bi * 0x1_0000 + low;
    InstructionFields(op, bo, bi, low, insn);
    LowFields(insn, mid, xo, link);
    var rest := bo % 4 * 0x20_0000 + bi * 0x1_0000 + low;
    DivModUnique(insn, 0x80_0000, op * 8 + bo / 4, rest);
  }

  ghost predicate Wide(rows: seq<Row>, width: nat) {
    forall k | 0 <= k < |rows| :: |rows[k]| == width
  }

  /** The rows a deletion keeps. */
  function Kept(rows: seq<Row>, keep: seq<bool>): (r: seq<Row>)
    requires |keep| == |rows|
    ensures |r| <= |rows|
  {
    if rows == [] then []
    else (if keep[0] then [rows[0]] else []) + Kept(rows[1..], keep[1..])
  }

  /** Whether the comparator skips this expected row when the next actual row is a[0]. */
  predicate Skips(e: Row, a: seq<Row>) {
    |a| > 0 && |e| >= 2 && |a[0]| >= 1 && a[0][0] != e[0] && RemovableBranch(e[1])
  }

  function Advance(a: seq<Row>): seq<Row> {
    if |a| > 0 then a[1..] else a
  }

  /** The deletion the comparator makes in one pass. */
  function Greedy(rows: seq<Row>, a: seq<Row>): (keep: seq<bool>)
    ensures |keep| == |rows|
    decreases |rows|
  {
    if rows == [] then []
    else if Skips(rows[0], a) then [false] + Greedy(rows[1..], a)
    else [true] + Greedy(rows[1..], Advance(a))
  }

  /** Deleting these rows of the expected trace leaves exactly the actual one, each deleted row being a removable branch
      whose next kept row is at another PC. */
  ghost predicate Explains(keep: seq<bool>, rows: seq<Row>, a: seq<Row>)
    requires Wide(rows, 38)
  {
    |keep| == |rows| && Kept(rows, keep) == a && forall k | 0 <= k < |rows| && !keep[k] :: Dropped(keep, rows, k)
  }

  ghost predicate Dropped(keep: seq<bool>, rows: seq<Row>, k: nat)
    requires |keep| == |rows| && Wide(rows, 38) && k < |rows|
  {
    var later := Kept(rows[k + 1..], keep[k + 1..]);
    RemovableBranch(rows[k][1]) && later != [] && Later(rows, keep, k)[0] != rows[k][0]
  }

  /** The next row kept after k. */
  ghost function Later(rows: seq<Row>, keep: seq<bool>, k: nat): (r: Row)
    requires |keep| == |rows| && Wide(rows, 38) && k < |rows| && Kept(rows[k + 1..], keep[k + 1..]) != []
    ensures |r| == 38
  {
    KeptWide(rows[k + 1..], keep[k + 1..], 38);
    Kept(rows[k + 1..], keep[k + 1..])[0]
  }

  lemma {:induction false} KeptWide(rows: seq<Row>, keep: seq<bool>, width: nat)
    requires |keep| == |rows| && Wide(rows, width)
    ensures Wide(Kept(rows, keep), width)
  {
    if rows != [] {
      KeptWide(rows[1..], keep[1..], width);
    }
  }

  lemma DroppedTail(keep: seq<bool>, rows: seq<Row>, k: nat)
    requires |keep| == |rows| && Wide(rows, 38) && 1 <= k < |rows|
    ensures Dropped(keep, rows, k) <==> Dropped(keep[1..], rows[1..], k - 1)
  {
    assert rows[1..][k..] == rows[k + 1..] && keep[1..][k..] == keep[k + 1..];
  }

  lemma ExplainsTail(keep: seq<bool>, rows: seq<Row>, a: seq<Row>)
    requires Wide(rows, 38) && rows != [] && Explains(keep, rows, a)
    ensures Explains(keep[1..], rows[1..], if keep[0] then a[1..] else a)
  {
    forall k | 0 <= k < |rows[1..]| && !keep[1..][k] ensures Dropped(keep[1..], rows[1..], k) {
      DroppedTail(keep, rows, k + 1);
    }
  }

  /** Any explanation is the comparator's own. */
  lemma {:induction false} ExplanationIsGreedy(keep: seq<bool>, rows: seq<Row>, a: seq<Row>)
    requires Wide(rows, 38) && Explains(keep, rows, a)
    ensures keep == Greedy(rows, a)
    decreases |rows|
  {
    if rows != [] {
      var a' := if keep[0] then a[1..] else a;
      ExplainsTail(keep, rows, a);
      ExplanationIsGreedy(keep[1..], rows[1..], a');
      KeptWide(rows, keep, 38);
      if !keep[0] {
        assert Dropped(keep, rows, 0);
        assert Kept(rows, keep) == Kept(rows[1..], keep[1..]);
      }
      assert keep == [keep[0]] + keep[1..];
    }
  }

  /** When the comparator's deletion leaves the actual trace, it explains it. */
  lemma {:induction false} GreedyExplains(rows: seq<Row>, a: seq<Row>)
    requires Wide(rows, 38) && Kept(rows, Greedy(rows, a)) == a
    ensures Explains(Greedy(rows, a), rows, a)
    decreases |rows|
  {
    if rows != [] {
      var keep := Greedy(rows, a);
      var a' := if keep[0] then Advance(a) else a;
      assert keep[1..] == Greedy(rows[1..], a');
      assert Kept(rows[1..], keep[1..]) == a' by {
        if keep[0] {
          assert a == [rows[0]] + Kept(rows[1..], keep[1..]);
        }
      }
      GreedyExplains(rows[1..], a');
      forall k | 0 <= k < |rows| && !keep[k] ensures Dropped(keep, rows, k) {
        if k > 0 {
          DroppedTail(keep, rows, k);
        } else {
          assert rows[0 + 1..] == rows[1..] && keep[0 + 1..] == keep[1..];
        }
      }
    }
  }

  lemma {:induction false} KeptCount(rows: seq<Row>, keep: seq<bool>)
    requires |keep| == |rows|
    ensures |Kept(rows, keep)| + Deleted(keep) == |rows|
  {
    if rows != [] {
      KeptCount(rows[1..], keep[1..]);
    }
  }

  /** How many rows a deletion drops. */
  function Deleted(keep: seq<bool>): nat {
    if keep == [] then 0 else (if keep[0] then 0 else 1) + Deleted(keep[1..])
  }

  /** The first place two aligned traces part. */
  ghost predicate Differs(m: Mismatch, kept: seq<Row>, a: seq<Row>, width: nat) {
    match m
    case ShortRow => true
    case FieldCount(n) => n < |kept| && n < |a| && kept[..n] == a[..n] && (|kept[n]| != width || |a[n]| != width)
    case Field(n, f) =>
      n < |kept| && n < |a| && kept[..n] == a[..n] && |kept[n]| == width == |a[n]| && f < width
      && kept[n][..f] == a[n][..f] && kept[n][f] != a[n][f]
    case Missing(n) => n == |a| < |kept| && kept[..n] == a
    case Extra(n) => n == |kept| < |a| && a[..n] == kept
  }

  /** Some row lacks a PC or an instruction. */
  ghost predicate HasShort(rows: seq<Row>, a: seq<Row>) {
    (exists k | 0 <= k < |rows| :: |rows[k]| < 2) || exists k | 0 <= k < |a| :: |a[k]| < 2
  }

  /** What the comparator returns. */
  ghost predicate Verdict(r: Result<nat, Mismatch>, rows: seq<Row>, a: seq<Row>, width: nat) {
    var kept := Kept(rows, Greedy(rows, a));
    match r
    case Ok(k) => kept == a && k == |rows| - |kept| && Wide(kept, width)
    case Err(m) => Differs(m, kept, a, width) && (m == ShortRow ==> HasShort(rows, a))
  }

  /** Whether an expected row is skipped before the j-th actual row. */
  method Examine(e: Row, actual: seq<Row>, j: nat) returns (r: Result<bool, Mismatch>)
    ensures r.Ok? ==> r.value == Skips(e, Rest(actual, j))
    ensures r.Err? ==> r.error == ShortRow && (|e| < 2 || (j < |actual| && |actual[j]| < 2))
  {
    if j >= |actual| {
      return Ok(false);
    }
    if |actual[j]| < 1 || |e| < 1 || (actual[j][0] != e[0] && |e| < 2) {
      return Err(ShortRow);
    }
    r := Ok(actual[j][0] != e[0] && RemovableBranch(e[1]));
  }

  /** What the comparator keeps from row i on, with j rows kept so far. */
  function Pending(rows: seq<Row>, a: seq<Row>, i: nat, j: nat): seq<Row>
    requires i <= |rows|
  {
    Kept(rows[i..], Greedy(rows[i..], Rest(a, j)))
  }

  lemma PendingEnds(rows: seq<Row>, a: seq<Row>, j: nat)
    ensures Pending(rows, a, 0, 0) == Kept(rows, Greedy(rows, a)) && Pending(rows, a, |rows|, j) == []
  {
    assert rows[0..] == rows && Rest(a, 0) == a;
  }

  lemma MoveAcross(kept: seq<Row>, e: Row, pending: seq<Row>)
    ensures kept + ([e] + pending) == (kept + [e]) + pending
  {
  }

  /** The rows left after skipping, and how many were skipped. */
  method Align(expected: seq<Row>, actual: seq<Row>) returns (r: Result<seq<Row>, Mismatch>, removed: nat)
    ensures r.Ok? ==> r.value == Kept(expected, Greedy(expected, actual)) && removed == |expected| - |r.value|
    ensures r.Err? ==> r.error == ShortRow && HasShort(expected, actual)
  {
    hide Skips, Rest, Greedy, Kept, Pending;
    var kept: seq<Row>, j := [], 0;
    removed := 0;
    PendingEnds(expected, actual, 0);
    for i := 0 to |expected|
      invariant removed + |kept| == i && j == |kept|
      invariant kept + Pending(expected, actual, i, j) == Kept(expected, Greedy(expected, actual))
    {
      var skip := Examine(expected[i], actual, j);
      if skip.Err? {
        return Err(ShortRow), removed;
      }
      GreedyStep(expected, actual, i, j);
      if skip.value {
        removed := removed + 1;
      } else {
        MoveAcross(kept, expected[i], Pending(expected, actual, i + 1, j + 1));
        kept := kept + [expected[i]];
        j := j + 1;
      }
    }
    PendingEnds(expected, actual, j);
    r := Ok(kept);
  }

  /** What remains of the actual trace once j rows are matched. */
  function Rest(a: seq<Row>, j: nat): seq<Row> {
    if j <= |a| then a[j..] else []
  }

  lemma GreedyStep(rows: seq<Row>, a: seq<Row>, i: nat, j: nat)
    requires i < |rows|
    ensures Pending(rows, a, i, j)
         == if Skips(rows[i], Rest(a, j)) then Pending(rows, a, i + 1, j) else [rows[i]] + Pending(rows, a, i + 1, j + 1)
  {
    var tail, rest := rows[i..], Rest(a, j);
    assert tail[1..] == rows[i + 1..] && Advance(rest) == Rest(a, j + 1);
    var keep := Greedy(tail, rest);
    assert keep[1..] == if Skips(rows[i], rest) then Greedy(tail[1..], rest) else Greedy(tail[1..], Advance(rest));
  }

  method FirstDifference(e: Row, a: Row) returns (f: nat)
    requires |e| == |a|
    ensures f <= |e| && e[..f] == a[..f] && (f == |e| ==> e == a) && (f < |e| ==> e[f] != a[f])
  {
    f := 0;
    while f < |e| && e[f] == a[f]
      invariant f <= |e| && e[..f] == a[..f]
    {
      f := f + 1;
    }
    assert e[..|e|] == e && a[..|a|] == a;
  }

  /** Matches aligned traces row by row and field by field. */
  method Match(kept: seq<Row>, actual: seq<Row>, width: nat) returns (r: Option<Mismatch>)
    ensures r.None? ==> kept == actual && Wide(kept, width)
    ensures r.Some? ==> r.value != ShortRow && Differs(r.value, kept, actual, width)
  {
    var n := 0;
    while n < |kept| && n < |actual|
      invariant n <= |kept| && n <= |actual| && kept[..n] == actual[..n]
      invariant forall m | 0 <= m < n :: |kept[m]| == width
    {
      if |kept[n]| != width || |actual[n]| != width {
        return Some(FieldCount(n));
      }
      var f := FirstDifference(kept[n], actual[n]);
      if f < width {
        return Some(Field(n, f));
      }
      n := n + 1;
    }
    assert kept[..|kept|] == kept && actual[..|actual|] == actual;
    r := if |kept| > |actual| then Some(Missing(|actual|)) else if |kept| < |actual| then Some(Extra(|kept|)) else None;
  }

  /** Skips removed branches, then matches. */
  method Compare(expected: seq<Row>, actual: seq<Row>, width: nat) returns (r: Result<nat, Mismatch>)
    ensures Verdict(r, expected, actual, width)
  {
    hide Greedy, Kept;
    var aligned, removed := Align(expected, actual);
    if aligned.Err? {
      return Err(aligned.error);
    }
    var difference := Match(aligned.value, actual, width);
    r := if difference.Some? then Err(difference.value) else Ok(removed);
  }

  lemma VerdictSucceeds(r: Result<nat, Mismatch>, rows: seq<Row>, a: seq<Row>)
    requires Wide(rows, 38) && Wide(a, 38) && Verdict(r, rows, a, 38)
    ensures r.Ok? <==> Kept(rows, Greedy(rows, a)) == a
  {
    hide Kept, Greedy;
    var kept := Kept(rows, Greedy(rows, a));
  }

  /** Main theorem: for full rows the comparator accepts with k exactly when some deletion of k removable branches explains
      the actual trace, and that deletion is unique. */
  lemma AcceptsIffExplained(r: Result<nat, Mismatch>, rows: seq<Row>, a: seq<Row>, k: nat)
    requires Wide(rows, 38) && Wide(a, 38) && Verdict(r, rows, a, 38)
    ensures r == Ok(k) <==> exists keep :: Explains(keep, rows, a) && Deleted(keep) == k
    ensures forall keep, keep' | Explains(keep, rows, a) && Explains(keep', rows, a) :: keep == keep'
  {
    hide Explains, Kept, Greedy, Deleted;
    var greedy := Greedy(rows, a);
    VerdictSucceeds(r, rows, a);
    KeptCount(rows, greedy);
    if r.Ok? {
      GreedyExplains(rows, a);
    }
    forall keep | Explains(keep, rows, a) ensures keep == greedy && Kept(rows, greedy) == a {
      ExplanationIsGreedy(keep, rows, a);
      ExplainedKept(keep, rows, a);
    }
  }

  lemma ExplainedKept(keep: seq<bool>, rows: seq<Row>, a: seq<Row>)
    requires Wide(rows, 38) && Explains(keep, rows, a)
    ensures |keep| == |rows| && Kept(rows, keep) == a
  {
  }
}
