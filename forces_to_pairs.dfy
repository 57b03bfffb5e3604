/**
 * forces2pairs.py: reads an external-forces file line by line and recovers the
 * designed base pairs from its mutual traps. Two registers `a` and `b` hold the
 * last `particle` and `ref_particle` values seen; at every line holding `}` the
 * pair `(a, b)` is kept when `a < b` and both registers go back to -1.
 */
module ForcePairs {
  import opened Results
  import opened Text

  /** Why `forces2pairs` raises, with the index of the offending line: no `=` on a
      field line (IndexError from `split("=")[1]`), or a value `int(float(...))`
      does not accept (ValueError). */
  datatype PairsError =
    | MissingEquals(line: nat)
    | NotANumber(line: nat)

  /** The registers `a`, `b` and the list `pairs` between two lines. */
  datatype Registers = Registers(a: int, b: int, pairs: seq<(int, int)>)

  /** Registers at the start, and after every `}`. */
  function Reset(pairs: seq<(int, int)>): Registers {
    Registers(-1, -1, pairs)
  }

  /** `int(float(line.split("=")[1].strip()))` on the stripped line number `idx`. */
  function ReadField(line: string, idx: nat): (r: Result<int, PairsError>)
    ensures r.Err? ==> r.error.line == idx
    ensures r.Err? && r.error.MissingEquals? <==> '=' !in line
  {
    match FieldAfter(line, '=')
    case None => Err(MissingEquals(idx))
    case Some(v) =>
      match ParseFloatAsInt(v)
      case None => Err(NotANumber(idx))
      case Some(x) => Ok(x)
  }

  /** A stripped line that sets `a`. */
  predicate SetsA(l: string) {
    StartsWith(l, "particle")
  }

  /** A stripped line that sets `b`. */
  predicate SetsB(l: string) {
    Contains(l, "ref_particle")
  }

  /** A stripped line that closes a block. */
  predicate Closes(l: string) {
    '}' in l
  }

  /** What one line means to the loop: the value it gives `a` (when it starts
      with `particle`), the value it gives `b` (when it holds `ref_particle`), each
      possibly a failure, and whether it holds `}`. */
  datatype Line = Line(setA: Option<Result<int, PairsError>>, setB: Option<Result<int, PairsError>>, closes: bool)

  /** Line number `idx`, stripped and read. */
  function Decode(line: string, idx: nat): Line {
    var l := Strip(line);
    Line(if SetsA(l) then Some(ReadField(l, idx)) else None,
         if SetsB(l) then Some(ReadField(l, idx)) else None,
         Closes(l))
  }

  /** The file's lines, each read with its number. */
  function DecodeAll(lines: seq<string>): (ds: seq<Line>)
    ensures |ds| == |lines|
    ensures forall k :: 0 <= k < |lines| ==> ds[k] == Decode(lines[k], k)
  {
    seq(|lines|, k requires 0 <= k < |lines| => Decode(lines[k], k))
  }

  /** The body of the loop for one line: `a` is set first, then `b`, then a `}`
      keeps `(a, b)` when `a < b` and resets both. */
  function Step(d: Line, st: Registers): Result<Registers, PairsError> {
    if d.setA.Some? && d.setA.value.Err? then Err(d.setA.value.error)
    else if d.setB.Some? && d.setB.value.Err? then Err(d.setB.value.error)
    else
      var a := if d.setA.Some? then d.setA.value.value else st.a;
      var b := if d.setB.Some? then d.setB.value.value else st.b;
      if d.closes then Ok(Reset(st.pairs + (if a < b then [(a, b)] else [])))
      else Ok(Registers(a, b, st.pairs))
  }

  /** What the loop does from `st` over the lines `ds`. */
  function Fold(st: Registers, ds: seq<Line>): Result<Registers, PairsError>
    decreases |ds|
  {
    if |ds| == 0 then Ok(st)
    else
      match Step(ds[0], st)
      case Err(e) => Err(e)
      case Ok(next) => Fold(next, ds[1..])
  }

  /** What `forces2pairs` returns or raises for a file with these lines. */
  function Pairs(lines: seq<string>): Result<seq<(int, int)>, PairsError> {
    match Fold(Reset([]), DecodeAll(lines))
    case Ok(st) => Ok(st.pairs)
    case Err(e) => Err(e)
  }

  /** `forces2pairs` over the lines `readlines()` returns. */
  method Forces2Pairs(lines: seq<string>) returns (r: Result<seq<(int, int)>, PairsError>)
    ensures r == Pairs(lines)
  {
    ghost var ds := DecodeAll(lines);
    var pairs: seq<(int, int)> := [];
    var a, b := -1, -1;
    var i := 0;
    while i < |lines|
      invariant 0 <= i <= |lines|
      invariant Fold(Reset([]), ds) == Fold(Registers(a, b, pairs), ds[i..])
    {
      FoldNext(Registers(a, b, pairs), ds, i);
      var failure;
      a, b, pairs, failure := ReadLine(lines[i], i, a, b, pairs);
      if failure.Some? {
        return Err(failure.value);
      }
      i := i + 1;
    }
    assert ds[i..] == [];
    return Ok(pairs);
  }

  /** The body of the loop of `forces2pairs` for line number `idx`. */
  method ReadLine(line: string, idx: nat, a: int, b: int, pairs: seq<(int, int)>)
    returns (a': int, b': int, pairs': seq<(int, int)>, failure: Option<PairsError>)
    ensures failure.None? ==> Step(Decode(line, idx), Registers(a, b, pairs)) == Ok(Registers(a', b', pairs'))
    ensures failure.Some? ==> Step(Decode(line, idx), Registers(a, b, pairs)) == Err(failure.value)
  {
    var l := Strip(line);
    var setA: Option<Result<int, PairsError>> := None;
    var setB: Option<Result<int, PairsError>> := None;
    if SetsA(l) {
      setA := Some(ReadField(l, idx));
    }
    if SetsB(l) {
      setB := Some(ReadField(l, idx));
    }
    var closes := Closes(l);
    assert Decode(line, idx) == Line(setA, setB, closes);
    a', b', pairs', failure := Update(Line(setA, setB, closes), a, b, pairs);
  }

  /** The registers after a line that has been read. */
  method Update(d: Line, a: int, b: int, pairs: seq<(int, int)>)
    returns (a': int, b': int, pairs': seq<(int, int)>, failure: Option<PairsError>)
    ensures failure.None? ==> Step(d, Registers(a, b, pairs)) == Ok(Registers(a', b', pairs'))
    ensures failure.Some? ==> Step(d, Registers(a, b, pairs)) == Err(failure.value)
  {
    a', b', pairs', failure := a, b, pairs, None;
    if d.setA.Some? {
      if d.setA.value.Err? {
        return a', b', pairs', Some(d.setA.value.error);
      }
      a' := d.setA.value.value;
    }
    if d.setB.Some? {
      if d.setB.value.Err? {
        return a', b', pairs', Some(d.setB.value.error);
      }
      b' := d.setB.value.value;
    }
    if d.closes {
      if a' < b' {
        pairs' := pairs' + [(a', b')];
      }
      a', b' := -1, -1;
    }
    ghost var next := Step(d, Registers(a, b, pairs));
    assert next.Ok? && next.value.a == a' && next.value.b == b' && next.value.pairs == pairs';
  }

  /** One more line of the fold. */
  lemma FoldNext(st: Registers, ds: seq<Line>, i: nat)
    requires i < |ds|
    ensures Fold(st, ds[i..]) == match Step(ds[i], st)
      case Err(e) => Err(e)
      case Ok(next) => Fold(next, ds[i + 1..])
  {
    assert ds[i..][0] == ds[i];
    assert ds[i..][1..] == ds[i + 1..];
  }

  // ------------------------------------------------------------ properties

  /** Running over two pieces is running over the first, then over the second. */
  lemma {:induction false} FoldAppend(st: Registers, xs: seq<Line>, ys: seq<Line>)
    ensures Fold(st, xs).Err? ==> Fold(st, xs + ys) == Fold(st, xs)
    ensures Fold(st, xs).Ok? ==> Fold(st, xs + ys) == Fold(Fold(st, xs).value, ys)
    decreases |xs|
  {
    if |xs| == 0 {
      assert xs + ys == ys;
    } else {
      assert (xs + ys)[0] == xs[0];
      assert (xs + ys)[1..] == xs[1..] + ys;
      var r := Step(xs[0], st);
      if r.Ok? {
        FoldAppend(r.value, xs[1..], ys);
      }
    }
  }

  /** The number of lines holding `}`. */
  function CloseCount(ds: seq<Line>): nat {
    if |ds| == 0 then 0 else (if ds[0].closes then 1 else 0) + CloseCount(ds[1..])
  }

  predicate Ascending(pairs: seq<(int, int)>) {
    forall k :: 0 <= k < |pairs| ==> pairs[k].0 < pairs[k].1
  }

  /** Pairs are only ever appended, each with first < second, and at most one
      per line holding `}`. */
  lemma {:induction false} FoldAppends(st: Registers, ds: seq<Line>)
    requires Fold(st, ds).Ok?
    ensures |st.pairs| <= |Fold(st, ds).value.pairs| <= |st.pairs| + CloseCount(ds)
    ensures Fold(st, ds).value.pairs[..|st.pairs|] == st.pairs
    ensures Ascending(st.pairs) ==> Ascending(Fold(st, ds).value.pairs)
    decreases |ds|
  {
    if |ds| > 0 {
      var next := Step(ds[0], st).value;
      FoldAppends(next, ds[1..]);
      var ps := Fold(st, ds).value.pairs;
      assert ps[..|next.pairs|] == next.pairs;
      assert ps[..|st.pairs|] == next.pairs[..|st.pairs|];
    }
  }

  /** Every pair `forces2pairs` returns has first < second, and there are at most
      as many pairs as lines holding `}`. */
  lemma PairsBounded(lines: seq<string>)
    requires Pairs(lines).Ok?
    ensures Ascending(Pairs(lines).value)
    ensures |Pairs(lines).value| <= CloseCount(DecodeAll(lines))
  {
    FoldAppends(Reset([]), DecodeAll(lines));
  }

  /** The pairs read from a file start with the pairs read from any first part of
      it: pairs come out in the order of their closing lines. */
  lemma PairsInOrder(lines: seq<string>, more: seq<string>)
    requires Pairs(lines + more).Ok?
    ensures Pairs(lines).Ok?
    ensures |Pairs(lines).value| <= |Pairs(lines + more).value|
    ensures Pairs(lines + more).value[..|Pairs(lines).value|] == Pairs(lines).value
  {
    var xs := DecodeAll(lines);
    var all := DecodeAll(lines + more);
    var ys := all[|lines|..];
    assert all == xs + ys;
    FoldAppend(Reset([]), xs, ys);
    FoldAppends(Fold(Reset([]), xs).value, ys);
  }

  /** An empty file holds no pairs. */
  lemma PairsOfEmpty()
    ensures Pairs([]) == Ok([])
  {
  }

  /** A line that touches neither register and closes nothing. */
  predicate Quiet(line: string) {
    var l := Strip(line);
    !SetsA(l) && !SetsB(l) && !Closes(l)
  }

  /** A `}` line that sets neither register. */
  predicate PlainClose(line: string) {
    var l := Strip(line);
    !SetsA(l) && !SetsB(l) && Closes(l)
  }

  /** The meaning of a quiet line, and of a plain `}` line. */
  lemma QuietDecodes(line: string, idx: nat)
    ensures Quiet(line) <==> Decode(line, idx) == Line(None, None, false)
    ensures PlainClose(line) <==> Decode(line, idx) == Line(None, None, true)
  {
  }

  const QuietLine := Line(None, None, false)
  const CloseLine := Line(None, None, true)

  /** Quiet lines leave the registers as they are. */
  lemma {:induction false} QuietLinesKeep(st: Registers, ds: seq<Line>)
    requires forall k :: 0 <= k < |ds| ==> ds[k] == QuietLine
    ensures Fold(st, ds) == Ok(st)
    decreases |ds|
  {
    if |ds| > 0 {
      QuietLinesKeep(st, ds[1..]);
    }
  }

  /** A block with neither a `particle` nor a `ref_particle` line emits nothing:
      both registers are still -1 at its `}`. */
  lemma NeitherFieldEmitsNothing(before: seq<Line>, pairs: seq<(int, int)>, body: seq<Line>)
    requires Fold(Reset([]), before) == Ok(Reset(pairs))
    requires forall k :: 0 <= k < |body| ==> body[k] == QuietLine
    ensures Fold(Reset([]), before + body + [CloseLine]) == Ok(Reset(pairs))
  {
    FoldAppend(Reset([]), before + body, [CloseLine]);
    FoldAppend(Reset([]), before, body);
    QuietLinesKeep(Reset(pairs), body);
    assert Step(CloseLine, Reset(pairs)) == Ok(Reset(pairs + []));
    assert pairs + [] == pairs;
  }

  /** A block whose only field is `ref_particle = b` with `b >= 0` emits `(-1, b)`,
      because `a` is still -1 at its `}`. */
  lemma OnlyRefEmits(before: seq<Line>, pairs: seq<(int, int)>, pre: seq<Line>, post: seq<Line>, b: int)
    requires Fold(Reset([]), before) == Ok(Reset(pairs))
    requires forall k :: 0 <= k < |pre| ==> pre[k] == QuietLine
    requires forall k :: 0 <= k < |post| ==> post[k] == QuietLine
    requires b >= 0
    ensures Fold(Reset([]), before + pre + [Line(None, Some(Ok(b)), false)] + post + [CloseLine])
         == Ok(Reset(pairs + [(-1, b)]))
  {
    var ref := [Line(None, Some(Ok(b)), false)];
    FoldAppend(Reset([]), before, pre);
    QuietLinesKeep(Reset(pairs), pre);
    assert Fold(Reset([]), before + pre) == Ok(Reset(pairs));
    FoldAppend(Reset([]), before + pre, ref);
    assert Fold(Reset(pairs), ref) == Ok(Registers(-1, b, pairs));
    FoldAppend(Reset([]), before + pre + ref, post);
    QuietLinesKeep(Registers(-1, b, pairs), post);
    assert Fold(Reset([]), before + pre + ref + post) == Ok(Registers(-1, b, pairs));
    FoldAppend(Reset([]), before + pre + ref + post, [CloseLine]);
    assert Fold(Registers(-1, b, pairs), [CloseLine]) == Ok(Reset(pairs + [(-1, b)]));
  }

  /** A block setting `particle = p` and then `ref_particle = q` emits `(p, q)`
      exactly when `p < q`. */
  lemma BlockEmits(before: seq<Line>, pairs: seq<(int, int)>, p: int, q: int)
    requires Fold(Reset([]), before) == Ok(Reset(pairs))
    ensures Fold(Reset([]), before + [Line(Some(Ok(p)), None, false), Line(None, Some(Ok(q)), false), CloseLine])
         == Ok(Reset(pairs + if p < q then [(p, q)] else []))
  {
    var block := [Line(Some(Ok(p)), None, false), Line(None, Some(Ok(q)), false), CloseLine];
    FoldAppend(Reset([]), before, block);
    assert block[1..] == [Line(None, Some(Ok(q)), false), CloseLine];
    assert block[1..][1..] == [CloseLine];
    assert Fold(Registers(p, q, pairs), [CloseLine]) == Ok(Reset(pairs + if p < q then [(p, q)] else []));
  }
}
