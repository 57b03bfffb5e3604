/**
 * generate_force.py after the simulation backend has produced the hydrogen-bond
 * observable: the bonded map is built from the observable's lines, and for each
 * key in ascending order with `from < to` two mutual-trap blocks (and, when a
 * pairs file is requested, one pair line) are emitted.
 */
module GenerateForce {
  import opened Results
  import opened Text

  // ------------------------------------------------------------ options

  /** The command-line values that reach lines 50-65: each is absent or given. */
  datatype Options = Options(output: Option<string>, pairs: Option<string>, stiff: Option<string>)

  /** `-o` names the forces file; `forces.txt` otherwise. */
  function OutFile(opts: Options): (name: string)
    ensures opts.output.None? ==> name == "forces.txt"
    ensures opts.output.Some? ==> name == opts.output.value
  {
    if opts.output.Some? then opts.output.value else "forces.txt"
  }

  /** `pairsfile` is the `-f` name or `False`, and is tested for truth: an empty
      name counts as not requested. */
  function PairsFile(opts: Options): (name: Option<string>)
    ensures name.Some? <==> opts.pairs.Some? && opts.pairs.value != ""
    ensures name.Some? ==> name.value == opts.pairs.value
  {
    if opts.pairs.Some? && opts.pairs.value != "" then Some(opts.pairs.value) else None
  }

  /** The stiffness as it is formatted into the blocks: the `-s` value, 0.9 otherwise. */
  function Stiffness(opts: Options): (s: string)
    ensures opts.stiff.None? ==> s == "0.9"
    ensures opts.stiff.Some? ==> s == opts.stiff.value
  {
    if opts.stiff.Some? then opts.stiff.value else "0.9"
  }

  // ------------------------------------------------------------ the bonded map

  /** Why the loop over the observable raises, with the index of the line: fewer
      than two words (IndexError), or a word `int` does not accept (ValueError). */
  datatype BondError =
    | MissingWord(line: nat)
    | NotAnInteger(line: nat, word: string)

  /** One observable line `i j`: `bonded[int(p[0])] = int(p[1])`, where Python
      evaluates the right-hand side `int(p[1])` before the key `int(p[0])`. */
  function ParseBond(line: string, idx: nat): Result<(int, int), BondError> {
    var w := Words(line);
    if |w| < 2 then Err(MissingWord(idx))
    else match ParseInt(w[1])
      case None => Err(NotAnInteger(idx, w[1]))
      case Some(to) =>
        match ParseInt(w[0])
        case None => Err(NotAnInteger(idx, w[0]))
        case Some(from) => Ok((from, to))
  }

  /** A line is read as `(i, j)` exactly when its first two words are integers
      `i` and `j`; otherwise the error names the line, and a missing word is
      reported before a bad second word, which is reported before a bad first one. */
  lemma ParseBondMeaning(line: string, idx: nat)
    ensures ParseBond(line, idx).Err? ==> ParseBond(line, idx).error.line == idx
    ensures ParseBond(line, idx).Ok? <==>
      |Words(line)| >= 2 && ParseInt(Words(line)[0]).Some? && ParseInt(Words(line)[1]).Some?
    ensures ParseBond(line, idx).Ok? ==>
      ParseBond(line, idx).value == (ParseInt(Words(line)[0]).value, ParseInt(Words(line)[1]).value)
    ensures ParseBond(line, idx) == Err(MissingWord(idx)) <==> |Words(line)| < 2
    ensures |Words(line)| >= 2 && ParseInt(Words(line)[1]).None? ==>
      ParseBond(line, idx) == Err(NotAnInteger(idx, Words(line)[1]))
  {
  }

  /** A Python dict from ints to ints: its keys in insertion order, and its mapping. */
  datatype Dict = Dict(keys: seq<int>, values: map<int, int>) {
    ghost predicate Valid() {
      && (forall i, j :: 0 <= i < j < |keys| ==> keys[i] != keys[j])
      && (forall k :: k in keys <==> k in values)
    }
  }

  /** `d[k] = v`: a new key goes to the end, an existing key keeps its place. */
  function Put(d: Dict, k: int, v: int): (r: Dict)
    requires d.Valid()
    ensures r.Valid()
    ensures r.values == d.values[k := v]
  {
    if k in d.values then Dict(d.keys, d.values[k := v]) else Dict(d.keys + [k], d.values[k := v])
  }

  /** The observable lines after the first, each read with its index. */
  function ReadBonds(output: seq<string>): (bs: seq<Result<(int, int), BondError>>)
    ensures |bs| == if |output| <= 1 then 0 else |output| - 1
  {
    if |output| <= 1 then []
    else seq(|output| - 1, k requires 0 <= k < |output| - 1 => ParseBond(output[k + 1], k + 1))
  }

  /** The dict after the read lines `bs`, or the first error. */
  function Bonded(bs: seq<Result<(int, int), BondError>>): (r: Result<Dict, BondError>)
    ensures r.Ok? ==> r.value.Valid()
  {
    if |bs| == 0 then Ok(Dict([], map[]))
    else
      match Bonded(bs[..|bs| - 1])
      case Err(e) => Err(e)
      case Ok(d) =>
        match bs[|bs| - 1]
        case Err(e) => Err(e)
        case Ok(bond) => Ok(Put(d, bond.0, bond.1))
  }

  /** The loop at lines 93-96 over `pairs[1:]`. */
  method BuildBonded(output: seq<string>) returns (r: Result<Dict, BondError>)
    ensures r == Bonded(ReadBonds(output))
  {
    ghost var bs := ReadBonds(output);
    var bonded := Dict([], map[]);
    if |output| <= 1 {
      return Ok(bonded);
    }
    for m := 1 to |output|
      invariant Bonded(bs[..m - 1]) == Ok(bonded)
    {
      var p := ParseBond(output[m], m);
      assert bs[..m][..m - 1] == bs[..m - 1];
      assert p == bs[m - 1];
      if p.Err? {
        BondedStaysFailed(bs, m);
        return Err(p.error);
      }
      bonded := Put(bonded, p.value.0, p.value.1);
    }
    assert bs[..|output| - 1] == bs;
    return Ok(bonded);
  }

  lemma {:induction false} BondedStaysFailed(bs: seq<Result<(int, int), BondError>>, m: nat)
    requires m <= |bs|
    requires Bonded(bs[..m]).Err?
    ensures Bonded(bs) == Bonded(bs[..m])
    decreases |bs| - m
  {
    if m < |bs| {
      assert bs[..m + 1][..m] == bs[..m];
      BondedStaysFailed(bs, m + 1);
    } else {
      assert bs[..m] == bs;
    }
  }

  /** A later line for the same key overwrites an earlier one: the value of `i` is
      the one on the last line that sets `i`. */
  lemma {:induction false} LastWriteWins(bs: seq<Result<(int, int), BondError>>, t: nat, i: int, j: int)
    requires t < |bs|
    requires Bonded(bs).Ok?
    requires bs[t] == Ok((i, j))
    requires forall u :: t < u < |bs| ==> bs[u].Ok? ==> bs[u].value.0 != i
    ensures i in Bonded(bs).value.values
    ensures Bonded(bs).value.values[i] == j
  {
    var init := bs[..|bs| - 1];
    if t < |bs| - 1 {
      LastWriteWins(init, t, i, j);
    }
  }

  /** Every key of the dict comes from some line. */
  lemma {:induction false} KeysFromLines(bs: seq<Result<(int, int), BondError>>, i: int)
    requires Bonded(bs).Ok?
    requires i in Bonded(bs).value.values
    ensures exists t :: 0 <= t < |bs| && bs[t].Ok? && bs[t].value.0 == i
  {
    var t := |bs| - 1;
    if bs[t].value.0 != i {
      KeysFromLines(bs[..t], i);
      var u :| 0 <= u < t && bs[..t][u].Ok? && bs[..t][u].value.0 == i;
      assert bs[u] == bs[..t][u];
    }
  }

  // ------------------------------------------------------------ sorted

  predicate Increasing(s: seq<int>) {
    forall i, j :: 0 <= i < j < |s| ==> s[i] < s[j]
  }

  /** `x` put in its place in the increasing sequence `s`. */
  function Insert(x: int, s: seq<int>): (r: seq<int>)
    requires Increasing(s) && x !in s
    ensures Increasing(r) && |r| == |s| + 1
    ensures forall y :: y in r <==> y == x || y in s
  {
    if |s| == 0 then [x]
    else if x < s[0] then [x] + s
    else
      var rest := Insert(x, s[1..]);
      assert forall k :: 1 <= k < |s| ==> s[0] < s[k];
      assert forall k :: 0 <= k < |rest| ==> rest[k] in rest;
      [s[0]] + rest
  }

  /** `sorted(keys)` for distinct keys: the same keys, increasing. */
  function Sort(keys: seq<int>): (r: seq<int>)
    requires forall i, j :: 0 <= i < j < |keys| ==> keys[i] != keys[j]
    ensures Increasing(r) && |r| == |keys|
    ensures forall y :: y in r <==> y in keys
  {
    if |keys| == 0 then []
    else
      var init := keys[..|keys| - 1];
      assert forall y :: y in init ==> y in keys;
      assert keys == init + [keys[|keys| - 1]];
      Insert(keys[|keys| - 1], Sort(init))
  }

  // ------------------------------------------------------------ the output text

  /** The literal pieces of the mutual-trap template around its three `{}` slots. */
  const TrapTemplate: seq<string> :=
    ["{ \ntype = mutual_trap\nparticle = ", "\nstiff = ", "\nr0 = 1.2\nref_particle = ", "\nPBC=1\n}\n"]

  /** One mutual-trap block: the template formatted with `particle`, the stiffness
      text and `ref`. */
  function TrapBlock(particle: int, stiff: string, ref: int): string {
    Format(TrapTemplate, [IntToString(particle), stiff, IntToString(ref)])
  }

  /** One line of the pairs file, `f"{from} {to}\n"`. */
  function PairLine(from: int, to: int): string {
    Format(["", " ", "\n"], [IntToString(from), IntToString(to)])
  }

  /** The designed pairs: for the keys in the given order, `(key, bonded[key])`
      when `key < bonded[key]`. */
  function Designed(keys: seq<int>, values: map<int, int>): seq<(int, int)>
    requires forall k :: k in keys ==> k in values
  {
    if |keys| == 0 then []
    else
      var init := keys[..|keys| - 1];
      var k := keys[|keys| - 1];
      assert forall y :: y in init ==> y in keys;
      Designed(init, values) + (if k < values[k] then [(k, values[k])] else [])
  }

  /** Two blocks per pair: `particle = from, ref_particle = to`, then the reverse. */
  function TrapLines(ps: seq<(int, int)>, stiff: string): seq<string> {
    if |ps| == 0 then []
    else
      var p := ps[|ps| - 1];
      TrapLines(ps[..|ps| - 1], stiff) + [TrapBlock(p.0, stiff, p.1), TrapBlock(p.1, stiff, p.0)]
  }

  /** One `from to` line per pair. */
  function PairLines(ps: seq<(int, int)>): seq<string> {
    if |ps| == 0 then [] else PairLines(ps[..|ps| - 1]) + [PairLine(ps[|ps| - 1].0, ps[|ps| - 1].1)]
  }

  /** The loop at lines 103-110: `lines` and `pairlines` for the bonded dict. */
  method EmitForces(bonded: Dict, stiff: string, pairsfile: bool) returns (lines: seq<string>, pairlines: seq<string>)
    requires bonded.Valid()
    ensures lines == TrapLines(Designed(Sort(bonded.keys), bonded.values), stiff)
    ensures pairlines == if pairsfile then PairLines(Designed(Sort(bonded.keys), bonded.values)) else []
  {
    var keys := Sort(bonded.keys);
    ghost var ps: seq<(int, int)> := [];
    lines, pairlines := [], [];
    for i := 0 to |keys|
      invariant forall k :: k in keys ==> k in bonded.values
      invariant ps == Designed(keys[..i], bonded.values)
      invariant lines == TrapLines(ps, stiff)
      invariant pairlines == if pairsfile then PairLines(ps) else []
    {
      DesignedStep(keys, i, bonded.values);
      var from := keys[i];
      var to := bonded.values[from];
      if from < to {
        if pairsfile {
          pairlines := pairlines + [PairLine(from, to)];
        }
        lines := lines + [TrapBlock(from, stiff, to), TrapBlock(to, stiff, from)];
        PairsSnoc(ps, (from, to), stiff);
        ps := ps + [(from, to)];
      }
    }
    assert keys[..|keys|] == keys;
  }

  /** One more key adds its pair to `Designed` when it is the smaller end. */
  lemma DesignedStep(keys: seq<int>, i: nat, values: map<int, int>)
    requires i < |keys| && forall k :: k in keys ==> k in values
    ensures Designed(keys[..i + 1], values) == Designed(keys[..i], values) + (if keys[i] < values[keys[i]] then [(keys[i], values[keys[i]])] else [])
  {
    assert keys[..i + 1][..i] == keys[..i];
  }

  /** One more pair adds its two blocks and its pairs line. */
  lemma PairsSnoc(ps: seq<(int, int)>, p: (int, int), stiff: string)
    ensures TrapLines(ps + [p], stiff) == TrapLines(ps, stiff) + [TrapBlock(p.0, stiff, p.1), TrapBlock(p.1, stiff, p.0)]
    ensures PairLines(ps + [p]) == PairLines(ps) + [PairLine(p.0, p.1)]
  {
    assert (ps + [p])[..|ps|] == ps;
  }

  /** What `main` writes: the forces file and, when requested, the pairs file. */
  datatype Written = Written(forcesFile: string, forces: string, pairsFile: Option<string>, pairs: string)

  /** Lines 50-65 and 93-119 of `main`, given the observable's output lines. */
  method GenerateForces(opts: Options, output: seq<string>) returns (r: Result<Written, BondError>)
    ensures Bonded(ReadBonds(output)).Err? ==> r == Err(Bonded(ReadBonds(output)).error)
    ensures Bonded(ReadBonds(output)).Ok? ==> r.Ok?
    ensures r.Ok? ==> var d := Bonded(ReadBonds(output)).value;
      && r.value.forcesFile == OutFile(opts)
      && r.value.forces == Concat(TrapLines(Designed(Sort(d.keys), d.values), Stiffness(opts)))
      && r.value.pairsFile == PairsFile(opts)
      && r.value.pairs == (if PairsFile(opts).Some? then Concat(PairLines(Designed(Sort(d.keys), d.values))) else "")
  {
    var outfile := OutFile(opts);
    var pairsfile := PairsFile(opts);
    var stiff := Stiffness(opts);
    var bonded := BuildBonded(output);
    if bonded.Err? {
      return Err(bonded.error);
    }
    var lines, pairlines := EmitForces(bonded.value, stiff, pairsfile.Some?);
    var pairsText := if pairsfile.Some? then Concat(pairlines) else "";
    return Ok(Written(outfile, Concat(lines), pairsfile, pairsText));
  }

  // ------------------------------------------------------------ properties

  /** Exactly the keys with `key < bonded[key]` are emitted, each with its value. */
  lemma {:induction false} DesignedExactly(keys: seq<int>, values: map<int, int>, a: int, b: int)
    requires forall k :: k in keys ==> k in values
    ensures (a, b) in Designed(keys, values) <==> a in keys && values[a] == b && a < b
  {
    if |keys| > 0 {
      var init := keys[..|keys| - 1];
      assert keys == init + [keys[|keys| - 1]];
      assert forall y :: y in init ==> y in keys;
      DesignedExactly(init, values, a, b);
    }
  }

  /** Pairs come out in increasing order of their first element, each with
      first < second. */
  lemma {:induction false} DesignedOrdered(keys: seq<int>, values: map<int, int>)
    requires forall k :: k in keys ==> k in values
    requires Increasing(keys)
    ensures forall t :: 0 <= t < |Designed(keys, values)| ==>
      Designed(keys, values)[t].0 < Designed(keys, values)[t].1
    ensures forall t, u :: 0 <= t < u < |Designed(keys, values)| ==>
      Designed(keys, values)[t].0 < Designed(keys, values)[u].0
    ensures forall t :: 0 <= t < |Designed(keys, values)| ==> Designed(keys, values)[t].0 in keys
  {
    if |keys| > 0 {
      var init := keys[..|keys| - 1];
      assert forall y :: y in init ==> y in keys;
      DesignedOrdered(init, values);
      var last := keys[|keys| - 1];
      assert forall y :: y in init ==> y < last;
    }
  }

  /** Two blocks per pair, in order: `particle = from, ref_particle = to` first. */
  lemma {:induction false} TrapLinesShape(ps: seq<(int, int)>, stiff: string)
    ensures |TrapLines(ps, stiff)| == 2 * |ps|
    ensures forall t :: 0 <= t < |ps| ==>
      TrapLines(ps, stiff)[2 * t] == TrapBlock(ps[t].0, stiff, ps[t].1) &&
      TrapLines(ps, stiff)[2 * t + 1] == TrapBlock(ps[t].1, stiff, ps[t].0)
  {
    if |ps| > 0 {
      TrapLinesShape(ps[..|ps| - 1], stiff);
    }
  }

  /** One pair line per pair, in the same order. */
  lemma {:induction false} PairLinesShape(ps: seq<(int, int)>)
    ensures |PairLines(ps)| == |ps|
    ensures forall t :: 0 <= t < |ps| ==> PairLines(ps)[t] == PairLine(ps[t].0, ps[t].1)
  {
    if |ps| > 0 {
      PairLinesShape(ps[..|ps| - 1]);
    }
  }

  /** Whatever the options, there are twice as many trap blocks as pair lines
      written (or would be, when no pairs file is requested). */
  lemma BlocksTwicePairs(bonded: Dict, stiff: string)
    requires bonded.Valid()
    ensures |TrapLines(Designed(Sort(bonded.keys), bonded.values), stiff)|
         == 2 * |PairLines(Designed(Sort(bonded.keys), bonded.values))|
  {
    var ps := Designed(Sort(bonded.keys), bonded.values);
    TrapLinesShape(ps, stiff);
    PairLinesShape(ps);
  }

  /** A pair line read back as an observable line gives the same pair. */
  lemma PairLineRoundTrip(from: int, to: int, idx: nat)
    ensures ParseBond(PairLine(from, to), idx) == Ok((from, to))
  {
    var a := IntToString(from);
    var b := IntToString(to);
    IntToStringShape(from);
    IntToStringShape(to);
    FormatPair(a, b);
    WordsOfTokens(a, b);
    ParseIntRoundTrip(from);
    ParseIntRoundTrip(to);
  }

  /** The pairs file reads back, line by line, as the pairs it was written from. */
  lemma PairsFileRoundTrip(ps: seq<(int, int)>)
    ensures |PairLines(ps)| == |ps|
    ensures forall t :: 0 <= t < |ps| ==> ParseBond(PairLines(ps)[t], t) == Ok(ps[t])
  {
    PairLinesShape(ps);
    forall t | 0 <= t < |ps| ensures ParseBond(PairLines(ps)[t], t) == Ok(ps[t]) {
      PairLineRoundTrip(ps[t].0, ps[t].1, t);
    }
  }

  lemma FormatPair(a: string, b: string)
    ensures Format(["", " ", "\n"], [a, b]) == a + " " + b + "\n"
  {
    var p := ["", " ", "\n"];
    assert p[..2] == ["", " "] && p[..2][..1] == [""];
    assert [a, b][..1] == [a] && [a][..0] == [];
    assert Format([""], []) == "";
    assert Format(["", " "], [a]) == "" + a + " ";
  }

  /** Two whitespace-free tokens separated by a space and ended by a line break
      split into those two words. */
  lemma WordsOfTokens(a: string, b: string)
    requires |a| > 0 && forall k :: 0 <= k < |a| ==> !IsSpace(a[k])
    requires |b| > 0 && forall k :: 0 <= k < |b| ==> !IsSpace(b[k])
    ensures Words(a + " " + b + "\n") == [a, b]
  {
    var last := b + "\n";
    var tail := " " + last;
    Regroup4(a, " ", b, "\n");
    assert tail[0] == ' ' && tail[1..] == last;
    WordsOfWord(a, tail);
    WordsOfLastWord(b);
    assert [a] + [b] == [a, b];
  }

  lemma Regroup4(w: string, x: string, y: string, z: string)
    ensures w + x + y + z == w + (x + (y + z))
  {
  }

  /** A whitespace-free word ended by a line break is one word. */
  lemma WordsOfLastWord(w: string)
    requires |w| > 0 && forall k :: 0 <= k < |w| ==> !IsSpace(w[k])
    ensures Words(w + "\n") == [w]
  {
    var brk := "\n";
    assert |brk| > 0 && IsSpace(brk[0]);
    WordsOfWord(w, brk);
    assert brk[1..] == [];
    assert [w] + [] == [w];
  }

  /** A whitespace-free word followed by whitespace is the first word. */
  lemma WordsOfWord(w: string, rest: string)
    requires |w| > 0 && forall k :: 0 <= k < |w| ==> !IsSpace(w[k])
    requires |rest| > 0 && IsSpace(rest[0])
    ensures Words(w + rest) == [w] + Words(rest[1..])
  {
    WordPrefixOf(w, rest);
    assert (w + rest)[|w|..] == rest;
  }

  lemma {:induction false} WordPrefixOf(w: string, rest: string)
    requires forall k :: 0 <= k < |w| ==> !IsSpace(w[k])
    requires |rest| > 0 && IsSpace(rest[0])
    ensures WordPrefix(w + rest) == w
  {
    if |w| > 0 {
      assert (w + rest)[1..] == w[1..] + rest;
      WordPrefixOf(w[1..], rest);
    } else {
      assert w + rest == rest;
    }
  }
}
