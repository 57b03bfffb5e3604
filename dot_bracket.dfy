/**
 * db_to_force.py: `parse_dot_bracket` turns a dot-bracket string into a pairing
 * array (the partner index of every nucleotide, -1 when unpaired) by matching
 * each closing bracket with the latest unmatched opening bracket of its own kind,
 * one stack per kind; `db_to_forcelist` optionally mirrors the string first and
 * emits one mutual trap per paired nucleotide.
 */
module DotBracket {
  import opened Results
  import opened Text

  // ------------------------------------------------------------ brackets

  datatype Kind = Paren | Square | Curly

  function Opener(k: Kind): char {
    match k
    case Paren => '('
    case Square => '['
    case Curly => '{'
  }

  function Closer(k: Kind): char {
    match k
    case Paren => ')'
    case Square => ']'
    case Curly => '}'
  }

  predicate IsOpener(c: char) {
    c == '(' || c == '[' || c == '{'
  }

  predicate IsCloser(c: char) {
    c == ')' || c == ']' || c == '}'
  }

  predicate IsBracket(c: char) {
    IsOpener(c) || IsCloser(c)
  }

  function KindOf(c: char): (k: Kind)
    requires IsBracket(c)
    ensures IsOpener(c) ==> c == Opener(k)
    ensures IsCloser(c) ==> c == Closer(k)
  {
    if c == '(' || c == ')' then Paren else if c == '[' || c == ']' then Square else Curly
  }

  /** The characters `parse_dot_bracket` accepts. */
  predicate IsDotBracketChar(c: char) {
    c == '.' || IsBracket(c)
  }

  /** Position `o` opens and position `c` closes a bracket of one kind. */
  predicate Matched(s: string, o: int, c: int)
    requires 0 <= o < |s| && 0 <= c < |s|
  {
    IsOpener(s[o]) && s[c] == Closer(KindOf(s[o]))
  }

  /** Why `parse_dot_bracket` raises: `pop` from an empty list (IndexError), or a
      character outside `.()[]{}` (RuntimeError); `pos` indexes the stripped string. */
  datatype ParseError =
    | EmptyStack(pos: nat, c: char)
    | InvalidCharacter(pos: nat, c: char)

  // ------------------------------------------------------ the scan, as a fold

  /** The three lists `paren_queue`, `square_queue` and `curly_queue`. */
  datatype Stacks = Stacks(paren: seq<nat>, square: seq<nat>, curly: seq<nat>) {
    function Get(k: Kind): seq<nat> {
      match k
      case Paren => paren
      case Square => square
      case Curly => curly
    }

    function Set(k: Kind, q: seq<nat>): (r: Stacks)
      ensures r.Get(k) == q
      ensures forall k' :: k' != k ==> r.Get(k') == Get(k')
    {
      match k
      case Paren => this.(paren := q)
      case Square => this.(square := q)
      case Curly => this.(curly := q)
    }

    predicate Below(n: nat) {
      forall k: Kind, a :: 0 <= a < |Get(k)| ==> Get(k)[a] < n
    }
  }

  /** The stacks and the `output` array between two iterations of the loop. */
  datatype ScanState = ScanState(stacks: Stacks, output: seq<int>)

  /** One iteration of the loop of `parse_dot_bracket`, at position `i` of `s`. */
  function Step(s: string, i: nat, st: ScanState): (r: Result<ScanState, ParseError>)
    requires i < |s| <= |st.output| && st.stacks.Below(i)
    ensures r.Ok? ==> |r.value.output| == |st.output| && r.value.stacks.Below(i + 1)
  {
    var c := s[i];
    if c == '.' then Ok(st)
    else if IsOpener(c) then
      var k := KindOf(c);
      Ok(st.(stacks := st.stacks.Set(k, st.stacks.Get(k) + [i])))
    else if IsCloser(c) then
      var k := KindOf(c);
      var q := st.stacks.Get(k);
      if |q| == 0 then Err(EmptyStack(i, c))
      else
        var pair := q[|q| - 1];
        Ok(ScanState(st.stacks.Set(k, q[..|q| - 1]), st.output[i := pair][pair := i]))
    else Err(InvalidCharacter(i, c))
  }

  /** The state after the first `n` iterations over `s`, with an output of `size` entries. */
  function Scan(s: string, n: nat, size: nat): (r: Result<ScanState, ParseError>)
    requires n <= |s| <= size
    ensures r.Ok? ==> |r.value.output| == size && r.value.stacks.Below(n)
  {
    if n == 0 then Ok(ScanState(Stacks([], [], []), seq(size, _ => -1)))
    else
      match Scan(s, n - 1, size)
      case Err(e) => Err(e)
      case Ok(st) => Step(s, n - 1, st)
  }

  /** What `parse_dot_bracket(input)` returns or raises: the scan runs over the
      stripped string while the output is sized by the unstripped one. */
  function Parse(input: string): (r: Result<seq<int>, ParseError>)
    ensures r.Ok? ==> |r.value| == |input|
  {
    var s := Strip(input);
    match Scan(s, |s|, |input|)
    case Ok(st) => Ok(st.output)
    case Err(e) => Err(e)
  }

  /** `parse_dot_bracket`: fills `output` in place with three list stacks. */
  method ParseDotBracket(input: string) returns (r: Result<array<int>, ParseError>)
    ensures r.Ok? <==> Parse(input).Ok?
    ensures r.Ok? ==> r.value[..] == Parse(input).value
    ensures r.Err? ==> r.error == Parse(input).error
  {
    var output := new int[|input|](_ => -1);
    var failure := ScanInto(Strip(input), output);
    if failure.Some? {
      return Err(failure.value);
    }
    return Ok(output);
  }

  /** The loop of `parse_dot_bracket` over the stripped string `s`, pairing into
      `output`; it stops at the first position that raises. */
  method ScanInto(s: string, output: array<int>) returns (failure: Option<ParseError>)
    requires |s| <= output.Length && forall k :: 0 <= k < output.Length ==> output[k] == -1
    modifies output
    ensures failure.None? ==> Scan(s, |s|, output.Length).Ok? && Scan(s, |s|, output.Length).value.output == output[..]
    ensures failure.Some? ==> Scan(s, |s|, output.Length) == Err(failure.value)
  {
    // The three queues of the source, one per bracket kind.
    var queues := Stacks([], [], []);
    assert output[..] == Scan(s, 0, output.Length).value.output;
    var i := 0;
    while i < |s|
      invariant 0 <= i <= |s|
      invariant Scan(s, i, output.Length) == Ok(ScanState(queues, output[..]))
    {
      queues, failure := ParsePosition(s, i, output, queues);
      if failure.Some? {
        ScanStaysFailed(s, i + 1, |s|, output.Length);
        return;
      }
      i := i + 1;
    }
    failure := None;
  }

  /** One iteration of the loop of `parse_dot_bracket`: position `i` of `s`, with
      the queues and the output array as the previous iterations left them. */
  method ParsePosition(s: string, i: nat, output: array<int>, queues: Stacks)
    returns (queues': Stacks, failure: Option<ParseError>)
    requires i < |s| <= output.Length
    requires Scan(s, i, output.Length) == Ok(ScanState(queues, output[..]))
    modifies output
    ensures failure.None? ==> Scan(s, i + 1, output.Length) == Ok(ScanState(queues', output[..]))
    ensures failure.Some? ==> Scan(s, i + 1, output.Length) == Err(failure.value)
  {
    ghost var st := ScanState(queues, output[..]);
    var c := s[i];
    queues', failure := queues, None;
    if c == '.' {
      StepKeeps(s, i, st, output.Length);
    } else if IsOpener(c) {
      var k := KindOf(c);
      queues' := queues.Set(k, queues.Get(k) + [i]);
      StepPushes(s, i, st, output.Length);
    } else if IsCloser(c) {
      var k := KindOf(c);
      var q := queues.Get(k);
      if |q| == 0 {
        StepFails(s, i, st, output.Length);
        failure := Some(EmptyStack(i, c));
      } else {
        var pair := q[|q| - 1];
        queues' := queues.Set(k, q[..|q| - 1]);
        output[i] := pair;
        output[pair] := i;
        assert output[..] == st.output[i := pair][pair := i];
        StepPops(s, i, st, output.Length);
      }
    } else {
      StepFails(s, i, st, output.Length);
      failure := Some(InvalidCharacter(i, c));
    }
  }

  /** The scan after one more position, in each of the cases of `Step`. */
  lemma StepKeeps(s: string, i: nat, st: ScanState, size: nat)
    requires i < |s| <= size && Scan(s, i, size) == Ok(st) && s[i] == '.'
    ensures Scan(s, i + 1, size) == Ok(st)
  {
  }

  lemma StepPushes(s: string, i: nat, st: ScanState, size: nat)
    requires i < |s| <= size && Scan(s, i, size) == Ok(st) && IsOpener(s[i])
    ensures var k := KindOf(s[i]);
      Scan(s, i + 1, size) == Ok(st.(stacks := st.stacks.Set(k, st.stacks.Get(k) + [i])))
  {
  }

  lemma StepRejects(s: string, i: nat, st: ScanState, size: nat)
    requires i < |s| <= size && Scan(s, i, size) == Ok(st) && !IsDotBracketChar(s[i])
    ensures Scan(s, i + 1, size) == Err(InvalidCharacter(i, s[i]))
  {
  }

  lemma StepPops(s: string, i: nat, st: ScanState, size: nat)
    requires i < |s| <= size && Scan(s, i, size) == Ok(st) && IsCloser(s[i])
    requires |st.stacks.Get(KindOf(s[i]))| > 0
    ensures var k := KindOf(s[i]); var q := st.stacks.Get(k); var pair := q[|q| - 1];
      Scan(s, i + 1, size) == Ok(ScanState(st.stacks.Set(k, q[..|q| - 1]), st.output[i := pair][pair := i]))
  {
  }

  lemma StepFails(s: string, i: nat, st: ScanState, size: nat)
    requires i < |s| <= size && Scan(s, i, size) == Ok(st)
    requires !IsDotBracketChar(s[i]) || (IsCloser(s[i]) && |st.stacks.Get(KindOf(s[i]))| == 0)
    ensures Scan(s, i + 1, size) == Err(if IsCloser(s[i]) then EmptyStack(i, s[i]) else InvalidCharacter(i, s[i]))
  {
  }

  /** Once the scan has raised, it raises the same error at the end. */
  lemma {:induction false} ScanStaysFailed(s: string, n: nat, m: nat, size: nat)
    requires n <= m <= |s| <= size
    requires Scan(s, n, size).Err?
    ensures Scan(s, m, size) == Scan(s, n, size)
    decreases m - n
  {
    if n < m {
      ScanStaysFailed(s, n, m - 1, size);
    }
  }

  // ------------------------------------------------- what the scan keeps true

  /** Net number of unmatched openers of kind `k` in `s[..n]`: the height the
      stack of that kind would have if nothing had gone wrong. */
  function Depth(s: string, n: nat, k: Kind): int
    requires n <= |s|
  {
    if n == 0 then 0
    else Depth(s, n - 1, k) + (if s[n - 1] == Opener(k) then 1 else if s[n - 1] == Closer(k) then -1 else 0)
  }

  /** Position `i` makes the parser raise, assuming nothing before it did. */
  predicate BadAt(s: string, i: nat)
    requires i < |s|
  {
    !IsDotBracketChar(s[i]) || (IsCloser(s[i]) && Depth(s, i, KindOf(s[i])) <= 0)
  }

  /** Nothing beyond the scanned prefix is paired yet. */
  ghost predicate Untouched(n: nat, out: seq<int>) {
    forall k :: n <= k < |out| ==> out[k] == -1
  }

  /** Pairing is an involution on the scanned prefix. */
  ghost predicate Symmetric(n: nat, out: seq<int>)
    requires n <= |out|
  {
    forall k :: 0 <= k < n && out[k] != -1 ==> 0 <= out[k] < n && out[k] != k && out[out[k]] == k
  }

  /** Openers pair forward with a closer of their kind, closers always pair backward. */
  ghost predicate Kinds(s: string, n: nat, out: seq<int>)
    requires n <= |s| <= |out|
  {
    && (forall k :: 0 <= k < n && k < out[k] < n ==> Matched(s, k, out[k]))
    && (forall k :: 0 <= k < n && IsOpener(s[k]) && out[k] != -1 ==> k < out[k])
    && (forall k :: 0 <= k < n && IsCloser(s[k]) ==> 0 <= out[k] < k)
    && (forall k :: 0 <= k < n && !IsBracket(s[k]) ==> out[k] == -1)
  }

  /** Last in, first out: brackets of a pair's kind strictly inside it are paired
      strictly inside it, so pairs of one kind never cross. */
  ghost predicate NonCrossing(s: string, n: nat, out: seq<int>)
    requires n <= |s| <= |out|
  {
    forall c :: 0 <= c < n && 0 <= out[c] < c ==>
      forall k :: out[c] < k < c && IsBracket(s[k]) && IsCloser(s[c]) && KindOf(s[k]) == KindOf(s[c]) ==>
        out[c] < out[k] < c
  }

  /** Every stack entry is an unpaired opener of the stack's kind before `n`. */
  ghost predicate StackEntries(s: string, n: nat, stacks: Stacks, out: seq<int>)
    requires n <= |s| <= |out|
  {
    forall k: Kind, a :: 0 <= a < |stacks.Get(k)| ==>
      stacks.Get(k)[a] < n && s[stacks.Get(k)[a]] == Opener(k) && out[stacks.Get(k)[a]] == -1
  }

  ghost predicate StacksIncrease(stacks: Stacks) {
    forall k: Kind, a, b :: 0 <= a < b < |stacks.Get(k)| ==> stacks.Get(k)[a] < stacks.Get(k)[b]
  }

  /** Every unpaired opener before `n` is on the stack of its kind. */
  ghost predicate UnpairedStacked(s: string, n: nat, stacks: Stacks, out: seq<int>)
    requires n <= |s| <= |out|
  {
    forall k :: 0 <= k < n && IsOpener(s[k]) && out[k] == -1 ==> k in stacks.Get(KindOf(s[k]))
  }

  ghost predicate StackDepths(s: string, n: nat, stacks: Stacks)
    requires n <= |s|
  {
    forall k: Kind :: |stacks.Get(k)| == Depth(s, n, k)
  }

  /** Every stack holds, in increasing order, exactly the unpaired openers of its kind. */
  ghost predicate StacksHold(s: string, n: nat, st: ScanState)
    requires n <= |s| <= |st.output|
  {
    && StackEntries(s, n, st.stacks, st.output)
    && StacksIncrease(st.stacks)
    && UnpairedStacked(s, n, st.stacks, st.output)
    && StackDepths(s, n, st.stacks)
  }

  ghost predicate Inv(s: string, n: nat, st: ScanState)
    requires n <= |s| <= |st.output|
  {
    && Untouched(n, st.output)
    && Symmetric(n, st.output)
    && Kinds(s, n, st.output)
    && NonCrossing(s, n, st.output)
    && StacksHold(s, n, st)
  }

  /** A position that neither closes nor gets paired keeps the pairing facts. */
  lemma ExtendUnpaired(s: string, i: nat, out: seq<int>)
    requires i < |s| <= |out|
    requires Untouched(i, out) && Symmetric(i, out) && Kinds(s, i, out) && NonCrossing(s, i, out)
    requires !IsCloser(s[i])
    ensures Untouched(i + 1, out) && Symmetric(i + 1, out) && Kinds(s, i + 1, out) && NonCrossing(s, i + 1, out)
  {
    assert out[i] == -1;
  }

  lemma StepDot(s: string, i: nat, st: ScanState)
    requires i < |s| <= |st.output| && st.stacks.Below(i)
    requires Inv(s, i, st) && s[i] == '.'
    ensures Step(s, i, st) == Ok(st) && Inv(s, i + 1, st)
  {
    ExtendUnpaired(s, i, st.output);
    assert StacksHold(s, i + 1, st) by {
      forall k: Kind ensures |st.stacks.Get(k)| == Depth(s, i + 1, k) {
      }
    }
  }

  /** Pushing an opener keeps each stack equal to the unpaired openers of its kind. */
  lemma PushKeepsStacks(s: string, i: nat, st: ScanState)
    requires i < |s| <= |st.output|
    requires StacksHold(s, i, st) && Untouched(i, st.output) && IsOpener(s[i])
    ensures var k := KindOf(s[i]);
      StacksHold(s, i + 1, st.(stacks := st.stacks.Set(k, st.stacks.Get(k) + [i])))
  {
    var k := KindOf(s[i]);
    var st' := st.(stacks := st.stacks.Set(k, st.stacks.Get(k) + [i]));
    var out := st.output;
    assert out[i] == -1;
    forall k': Kind, a | 0 <= a < |st'.stacks.Get(k')|
      ensures st'.stacks.Get(k')[a] < i + 1 && s[st'.stacks.Get(k')[a]] == Opener(k')
      ensures out[st'.stacks.Get(k')[a]] == -1
    {
      if k' == k && a == |st.stacks.Get(k)| {
      } else {
        assert st'.stacks.Get(k')[a] == st.stacks.Get(k')[a];
      }
    }
    forall k': Kind, a, b | 0 <= a < b < |st'.stacks.Get(k')|
      ensures st'.stacks.Get(k')[a] < st'.stacks.Get(k')[b]
    {
      assert st'.stacks.Get(k')[a] == st.stacks.Get(k')[a];
    }
    forall j | 0 <= j < i + 1 && IsOpener(s[j]) && out[j] == -1
      ensures j in st'.stacks.Get(KindOf(s[j]))
    {
      if j < i {
        assert j in st.stacks.Get(KindOf(s[j]));
      } else {
        assert st'.stacks.Get(k)[|st.stacks.Get(k)|] == i;
      }
    }
    forall k': Kind ensures |st'.stacks.Get(k')| == Depth(s, i + 1, k') {
    }
  }

  lemma StepOpen(s: string, i: nat, st: ScanState)
    requires i < |s| <= |st.output| && st.stacks.Below(i)
    requires Inv(s, i, st) && IsOpener(s[i])
    ensures Step(s, i, st).Ok? && Inv(s, i + 1, Step(s, i, st).value)
  {
    var k := KindOf(s[i]);
    assert Step(s, i, st) == Ok(st.(stacks := st.stacks.Set(k, st.stacks.Get(k) + [i])));
    ExtendUnpaired(s, i, st.output);
    PushKeepsStacks(s, i, st);
  }

  /** Pairing a closer at `i` with an unpaired opener `p` of its kind keeps the
      output an involution that matches kinds. */
  lemma CloseKeepsPairing(s: string, i: nat, out: seq<int>, p: nat)
    requires i < |s| <= |out| && p < i
    requires Untouched(i, out) && Symmetric(i, out) && Kinds(s, i, out)
    requires IsCloser(s[i]) && s[p] == Opener(KindOf(s[i])) && out[p] == -1
    ensures Untouched(i + 1, out[i := p][p := i])
    ensures Symmetric(i + 1, out[i := p][p := i])
    ensures Kinds(s, i + 1, out[i := p][p := i])
  {
    var out' := out[i := p][p := i];
    forall j | 0 <= j < i + 1 && out'[j] != -1
      ensures 0 <= out'[j] < i + 1 && out'[j] != j && out'[out'[j]] == j
    {
      if j != i && j != p {
        assert out[j] != -1 && out[out[j]] == j;
        assert out[j] != p;
      }
    }
    forall j | 0 <= j < i + 1 && j < out'[j] < i + 1
      ensures Matched(s, j, out'[j])
    {
      if j != p {
        assert j != i && out'[j] == out[j];
      }
    }
  }

  /** The top `p` of the closer's stack is above every other entry. */
  lemma TopIsLatest(q: seq<nat>)
    requires |q| > 0
    requires forall a, b :: 0 <= a < b < |q| ==> q[a] < q[b]
    ensures forall a :: 0 <= a < |q| - 1 ==> q[a] < q[|q| - 1]
    ensures forall a :: 0 <= a < |q| ==> q[a] <= q[|q| - 1]
  {
  }

  /** The pair that closes at `i` with the top `p` of its stack encloses only pairs. */
  lemma NewPairNests(s: string, i: nat, st: ScanState, p: nat, j: nat)
    requires i < |s| <= |st.output| && st.stacks.Below(i)
    requires Inv(s, i, st) && IsCloser(s[i])
    requires var q := st.stacks.Get(KindOf(s[i])); |q| > 0 && p == q[|q| - 1]
    requires p < j < i && IsBracket(s[j]) && KindOf(s[j]) == KindOf(s[i])
    ensures p < st.output[j] < i
  {
    var k := KindOf(s[i]);
    var q := st.stacks.Get(k);
    StackEntry(s, i, st.stacks, st.output, k, |q| - 1);
    OpenerKind(k);
    if IsCloser(s[j]) {
      NestedCloser(s, i, st.output, p, j);
    } else {
      StackIncreases(st.stacks, k);
      TopIsLatest(q);
      if st.output[j] == -1 {
        UnpairedOnStack(s, i, st.stacks, st.output, j);
      }
      NestedOpener(s, i, st.output, q, p, j);
    }
  }

  /** An entry of a stack is an unpaired opener of that stack's kind. */
  lemma StackEntry(s: string, i: nat, stacks: Stacks, out: seq<int>, k: Kind, a: nat)
    requires i <= |s| <= |out| && StackEntries(s, i, stacks, out) && a < |stacks.Get(k)|
    ensures stacks.Get(k)[a] < i && s[stacks.Get(k)[a]] == Opener(k) && out[stacks.Get(k)[a]] == -1
  {
  }

  lemma StackIncreases(stacks: Stacks, k: Kind)
    requires StacksIncrease(stacks)
    ensures forall a, b :: 0 <= a < b < |stacks.Get(k)| ==> stacks.Get(k)[a] < stacks.Get(k)[b]
  {
  }

  /** An unpaired opener before `i` is on the stack of its kind. */
  lemma UnpairedOnStack(s: string, i: nat, stacks: Stacks, out: seq<int>, j: nat)
    requires i <= |s| <= |out| && UnpairedStacked(s, i, stacks, out)
    requires j < i && IsOpener(s[j]) && out[j] == -1
    ensures j in stacks.Get(KindOf(s[j]))
  {
  }

  lemma OpenerKind(k: Kind)
    ensures IsOpener(Opener(k)) && IsBracket(Opener(k)) && KindOf(Opener(k)) == k
  {
  }

  /** An opener strictly inside the new pair is no longer on the stack, so it is
      already paired, and forward, inside the scanned prefix. */
  lemma NestedOpener(s: string, i: nat, out: seq<int>, q: seq<nat>, p: nat, j: nat)
    requires i < |s| <= |out| && p < j < i
    requires Symmetric(i, out) && Kinds(s, i, out)
    requires IsOpener(s[j]) && (out[j] == -1 ==> j in q)
    requires forall a :: 0 <= a < |q| ==> q[a] <= p
    ensures p < out[j] < i
  {
    assert j !in q;
  }

  /** A closer strictly inside the new pair opened after `p`: an earlier opener
      would put the still unpaired `p` inside a finished pair of its kind. */
  lemma NestedCloser(s: string, i: nat, out: seq<int>, p: nat, j: nat)
    requires i < |s| <= |out| && p < j < i
    requires Symmetric(i, out) && Kinds(s, i, out) && NonCrossing(s, i, out)
    requires IsCloser(s[j]) && IsBracket(s[p]) && KindOf(s[p]) == KindOf(s[j]) && out[p] == -1
    ensures p < out[j] < i
  {
    var o := out[j];
    assert 0 <= o < j && out[o] == j;
    if o < p {
      assert false;
    }
    assert o != p;
  }

  /** Pairing a closer at `i` with the top `p` of its stack keeps pairs from crossing. */
  lemma CloseKeepsNonCrossing(s: string, i: nat, st: ScanState, p: nat)
    requires i < |s| <= |st.output| && st.stacks.Below(i)
    requires Inv(s, i, st) && IsCloser(s[i])
    requires var q := st.stacks.Get(KindOf(s[i])); |q| > 0 && p == q[|q| - 1]
    ensures NonCrossing(s, i + 1, st.output[i := p][p := i])
  {
    var out := st.output;
    var out' := out[i := p][p := i];
    assert s[p] == Opener(KindOf(s[i])) && out[p] == -1;
    forall c | 0 <= c < i + 1 && 0 <= out'[c] < c
      ensures forall j :: out'[c] < j < c && IsBracket(s[j]) && IsCloser(s[c]) && KindOf(s[j]) == KindOf(s[c]) ==>
                out'[c] < out'[j] < c
    {
      forall j | out'[c] < j < c && IsBracket(s[j]) && IsCloser(s[c]) && KindOf(s[j]) == KindOf(s[c])
        ensures out'[c] < out'[j] < c
      {
        if c == i {
          NewPairNests(s, i, st, p, j);
        } else {
          assert c != p && out'[c] == out[c];
          OldPairNests(s, i, out, p, c, j);
        }
      }
    }
  }

  /** A pair closed before `i` still encloses what it enclosed, and never the unpaired opener `p`. */
  lemma OldPairNests(s: string, i: nat, out: seq<int>, p: nat, c: nat, j: int)
    requires i <= |s| <= |out| && p < i && c < i
    requires NonCrossing(s, i, out) && out[p] == -1
    requires 0 <= out[c] < j < c && IsBracket(s[j]) && IsCloser(s[c]) && KindOf(s[j]) == KindOf(s[c])
    ensures j != p && out[c] < out[j] < c
  {
  }

  /** Popping the top `p` keeps each stack equal to the unpaired openers of its kind. */
  lemma PopKeepsStacks(s: string, i: nat, st: ScanState)
    requires i < |s| <= |st.output| && st.stacks.Below(i)
    requires StacksHold(s, i, st) && Untouched(i, st.output) && IsCloser(s[i])
    requires |st.stacks.Get(KindOf(s[i]))| > 0
    ensures var k := KindOf(s[i]); var q := st.stacks.Get(k); var p := q[|q| - 1];
      StacksHold(s, i + 1, ScanState(st.stacks.Set(k, q[..|q| - 1]), st.output[i := p][p := i]))
  {
    var k := KindOf(s[i]);
    var q := st.stacks.Get(k);
    var p := q[|q| - 1];
    var stacks' := st.stacks.Set(k, q[..|q| - 1]);
    var out' := st.output[i := p][p := i];
    PopKeepsEntries(s, i, st.stacks, st.output, i + 1, stacks', out');
    PopKeepsOrder(s, i, st.stacks, stacks');
    PopKeepsUnpaired(s, i, st.stacks, st.output, i + 1, stacks', out');
    PopKeepsDepths(s, i, st.stacks, i + 1, stacks');
  }

  /** After a pop, every stack entry is still an unpaired opener of its kind. */
  lemma PopKeepsEntries(s: string, i: nat, stacks: Stacks, out: seq<int>, n: nat, stacks': Stacks, out': seq<int>)
    requires i < |s| <= |out| && n == i + 1
    requires StackEntries(s, i, stacks, out) && StacksIncrease(stacks) && IsCloser(s[i])
    requires var q := stacks.Get(KindOf(s[i])); |q| > 0 && stacks' == stacks.Set(KindOf(s[i]), q[..|q| - 1])
    requires var q := stacks.Get(KindOf(s[i])); out' == out[i := q[|q| - 1]][q[|q| - 1] := i]
    ensures StackEntries(s, n, stacks', out')
  {
    var k0 := KindOf(s[i]);
    var q := stacks.Get(k0);
    var p := q[|q| - 1];
    StackIncreases(stacks, k0);
    TopIsLatest(q);
    StackEntry(s, i, stacks, out, k0, |q| - 1);
    forall k: Kind, a | 0 <= a < |stacks'.Get(k)|
      ensures stacks'.Get(k)[a] < n && s[stacks'.Get(k)[a]] == Opener(k) && out'[stacks'.Get(k)[a]] == -1
    {
      var x := stacks.Get(k)[a];
      assert stacks'.Get(k)[a] == x;
      StackEntry(s, i, stacks, out, k, a);
      StillUnpaired(s, i, out, p, x, k, k0);
    }
  }

  /** An unpaired opener of kind `k` other than the popped top `p` stays unpaired. */
  lemma StillUnpaired(s: string, i: nat, out: seq<int>, p: nat, x: nat, k: Kind, k0: Kind)
    requires i < |s| <= |out| && p < i && x < i
    requires s[x] == Opener(k) && out[x] == -1 && s[p] == Opener(k0)
    requires k == k0 ==> x < p
    ensures out[i := p][p := i][x] == -1
  {
    if k != k0 {
      assert Opener(k) != Opener(k0);
    }
  }

  /** After a pop, every stack is still increasing. */
  lemma PopKeepsOrder(s: string, i: nat, stacks: Stacks, stacks': Stacks)
    requires i < |s| && StacksIncrease(stacks) && IsCloser(s[i])
    requires var q := stacks.Get(KindOf(s[i])); |q| > 0 && stacks' == stacks.Set(KindOf(s[i]), q[..|q| - 1])
    ensures StacksIncrease(stacks')
  {
    forall k: Kind, a, b | 0 <= a < b < |stacks'.Get(k)|
      ensures stacks'.Get(k)[a] < stacks'.Get(k)[b]
    {
      assert stacks'.Get(k)[a] == stacks.Get(k)[a];
    }
  }

  /** After a pop, every opener still unpaired is still on its stack. */
  lemma PopKeepsUnpaired(s: string, i: nat, stacks: Stacks, out: seq<int>, n: nat, stacks': Stacks, out': seq<int>)
    requires i < |s| <= |out| && n == i + 1
    requires UnpairedStacked(s, i, stacks, out) && IsCloser(s[i])
    requires var q := stacks.Get(KindOf(s[i])); |q| > 0 && stacks' == stacks.Set(KindOf(s[i]), q[..|q| - 1])
    requires var q := stacks.Get(KindOf(s[i])); q[|q| - 1] < i && out' == out[i := q[|q| - 1]][q[|q| - 1] := i]
    ensures UnpairedStacked(s, n, stacks', out')
  {
    var k := KindOf(s[i]);
    var q := stacks.Get(k);
    var p := q[|q| - 1];
    forall j | 0 <= j < n && IsOpener(s[j]) && out'[j] == -1
      ensures j in stacks'.Get(KindOf(s[j]))
    {
      assert j != p && j != i;
      assert j in stacks.Get(KindOf(s[j]));
      if KindOf(s[j]) == k {
        var a :| 0 <= a < |q| && q[a] == j;
        assert q[..|q| - 1][a] == j;
      }
    }
  }

  /** After a pop, each stack's height is the running depth of its kind. */
  lemma PopKeepsDepths(s: string, i: nat, stacks: Stacks, n: nat, stacks': Stacks)
    requires i < |s| && n == i + 1
    requires StackDepths(s, i, stacks) && IsCloser(s[i])
    requires var q := stacks.Get(KindOf(s[i])); |q| > 0 && stacks' == stacks.Set(KindOf(s[i]), q[..|q| - 1])
    ensures StackDepths(s, n, stacks')
  {
    forall k: Kind ensures |stacks'.Get(k)| == Depth(s, n, k) {
    }
  }

  lemma StepClose(s: string, i: nat, st: ScanState)
    requires i < |s| <= |st.output| && st.stacks.Below(i)
    requires Inv(s, i, st) && IsCloser(s[i]) && |st.stacks.Get(KindOf(s[i]))| > 0
    ensures Step(s, i, st).Ok? && Inv(s, i + 1, Step(s, i, st).value)
  {
    var k := KindOf(s[i]);
    var q := st.stacks.Get(k);
    var p := q[|q| - 1];
    assert Step(s, i, st) == Ok(ScanState(st.stacks.Set(k, q[..|q| - 1]), st.output[i := p][p := i]));
    assert p < i && s[p] == Opener(k) && st.output[p] == -1;
    CloseKeepsPairing(s, i, st.output, p);
    CloseKeepsNonCrossing(s, i, st, p);
    PopKeepsStacks(s, i, st);
  }

  /** One step from a state that keeps `Inv`: it fails exactly at a bad position. */
  lemma StepFacts(s: string, i: nat, st: ScanState, r: Result<ScanState, ParseError>)
    requires i < |s| <= |st.output| && st.stacks.Below(i)
    requires Inv(s, i, st) && r == Step(s, i, st)
    ensures r.Ok? <==> !BadAt(s, i)
    ensures r.Ok? ==> |r.value.output| == |st.output| && Inv(s, i + 1, r.value)
    ensures r.Err? ==>
      r.error.pos == i && r.error.c == s[i] && (r.error.InvalidCharacter? <==> !IsDotBracketChar(s[i]))
  {
    if IsCloser(s[i]) {
      assert |st.stacks.Get(KindOf(s[i]))| == Depth(s, i, KindOf(s[i]));
      if |st.stacks.Get(KindOf(s[i]))| > 0 {
        StepClose(s, i, st);
      }
    } else if s[i] == '.' {
      StepDot(s, i, st);
    } else if IsOpener(s[i]) {
      StepOpen(s, i, st);
    }
  }

  /** The scan succeeds exactly when no position is bad, and keeps `Inv` while it does. */
  lemma ScanFacts(s: string, n: nat, size: nat)
    requires n <= |s| <= size
    ensures Scan(s, n, size).Ok? <==> forall j :: 0 <= j < n ==> !BadAt(s, j)
    ensures Scan(s, n, size).Ok? ==> Inv(s, n, Scan(s, n, size).value)
  {
    ScanKeepsInv(s, n, size);
    ScanOkIff(s, n, size);
  }

  lemma {:induction false} ScanKeepsInv(s: string, n: nat, size: nat)
    requires n <= |s| <= size
    ensures Scan(s, n, size).Ok? ==> Inv(s, n, Scan(s, n, size).value)
    decreases n, 1
  {
    if n == 0 {
      ScanStartInv(s, n, size);
    } else {
      ScanKeepsInvNext(s, n, size);
    }
  }

  /** Restates `Inv` of a scan at an equal length written another way. */
  lemma KeptAt(s: string, n: nat, m: nat, size: nat)
    requires n == m <= |s| <= size
    requires Scan(s, m, size).Ok? ==> Inv(s, m, Scan(s, m, size).value)
    ensures Scan(s, n, size).Ok? ==> Inv(s, n, Scan(s, n, size).value)
  {
  }

  lemma {:induction false} ScanKeepsInvNext(s: string, n: nat, size: nat)
    requires 0 < n <= |s| <= size
    ensures Scan(s, n, size).Ok? ==> Inv(s, n, Scan(s, n, size).value)
    decreases n, 0
  {
    var i: nat :| i + 1 == n;
    ScanKeepsInv(s, i, size);
    if Scan(s, i, size).Ok? {
      ScanStep(s, i, size);
    }
    KeptAt(s, n, i + 1, size);
  }

  /** The empty scan keeps `Inv`. */
  lemma ScanStartInv(s: string, n: nat, size: nat)
    requires n == 0 && |s| <= size
    ensures Scan(s, n, size).Ok? && Inv(s, n, Scan(s, n, size).value)
  {
    var st := Scan(s, 0, size).value;
    assert StacksHold(s, 0, st);
  }

  lemma {:induction false} ScanOkIff(s: string, n: nat, size: nat)
    requires n <= |s| <= size
    ensures Scan(s, n, size).Ok? <==> forall j :: 0 <= j < n ==> !BadAt(s, j)
    decreases n, 1
  {
    if n > 0 {
      var i: nat :| i + 1 == n;
      ScanOkIffNext(s, i, size);
      OkIffAt(s, n, i + 1, size);
    }
  }

  lemma {:induction false} ScanOkIffNext(s: string, i: nat, size: nat)
    requires i < |s| <= size
    ensures Scan(s, i + 1, size).Ok? <==> forall j :: 0 <= j < i + 1 ==> !BadAt(s, j)
    decreases i + 1, 0
  {
    ScanOkIff(s, i, size);
    if Scan(s, i, size).Ok? {
      NextOkIff(s, i, size);
      if Scan(s, i + 1, size).Ok? {
        forall j | 0 <= j < i + 1 ensures !BadAt(s, j) {
          if j < i {
            assert !BadAt(s, j);
          }
        }
      } else {
        assert BadAt(s, i);
      }
    } else {
      var j :| 0 <= j < i && BadAt(s, j);
      assert Scan(s, i + 1, size).Err?;
    }
  }

  /** A successful scan goes one position further exactly when that position is not bad. */
  lemma NextOkIff(s: string, i: nat, size: nat)
    requires i < |s| <= size && Scan(s, i, size).Ok?
    ensures Scan(s, i + 1, size).Ok? <==> !BadAt(s, i)
  {
    ScanKeepsInv(s, i, size);
    ScanStep(s, i, size);
  }

  /** Restates the success condition at an equal length written another way. */
  lemma OkIffAt(s: string, n: nat, m: nat, size: nat)
    requires n == m <= |s| <= size
    requires Scan(s, m, size).Ok? <==> forall j :: 0 <= j < m ==> !BadAt(s, j)
    ensures Scan(s, n, size).Ok? <==> forall j :: 0 <= j < n ==> !BadAt(s, j)
  {
  }

  /** One more position of a scan that has kept `Inv`. */
  lemma ScanStep(s: string, i: nat, size: nat)
    requires i < |s| <= size
    requires Scan(s, i, size).Ok? && Inv(s, i, Scan(s, i, size).value)
    ensures Scan(s, i + 1, size).Ok? <==> !BadAt(s, i)
    ensures Scan(s, i + 1, size).Ok? ==> Inv(s, i + 1, Scan(s, i + 1, size).value)
    ensures Scan(s, i + 1, size).Err? ==>
      var e := Scan(s, i + 1, size).error;
      e.pos == i && e.c == s[i] && (e.InvalidCharacter? <==> !IsDotBracketChar(s[i]))
  {
    ScanNext(s, i, size);
    StepFacts(s, i, Scan(s, i, size).value, Scan(s, i + 1, size));
  }

  lemma ScanNext(s: string, i: nat, size: nat)
    requires i < |s| <= size && Scan(s, i, size).Ok?
    ensures Scan(s, i + 1, size) == Step(s, i, Scan(s, i, size).value)
  {
  }

  /** A failed scan raises at the first bad position. */
  lemma {:induction false} ScanError(s: string, n: nat, size: nat)
    requires n <= |s| <= size
    ensures Scan(s, n, size).Err? ==>
      var e := Scan(s, n, size).error;
      && e.pos < n && e.c == s[e.pos] && BadAt(s, e.pos)
      && (forall j :: 0 <= j < e.pos ==> !BadAt(s, j))
      && (e.InvalidCharacter? <==> !IsDotBracketChar(s[e.pos]))
    decreases n
  {
    if n > 0 {
      var i: nat :| i + 1 == n;
      if Scan(s, i, size).Err? {
        ScanError(s, i, size);
        assert Scan(s, n, size) == Scan(s, i, size);
      } else {
        ScanFacts(s, i, size);
        ScanStep(s, i, size);
      }
    }
  }

  // ------------------------------------------ properties of parse_dot_bracket

  /** What the scan keeps true, read off a successful parse. */
  lemma ParseInv(input: string)
    requires Parse(input).Ok?
    ensures var s := Strip(input); var out := Parse(input).value;
      && |s| <= |out|
      && Untouched(|s|, out) && Symmetric(|s|, out) && Kinds(s, |s|, out) && NonCrossing(s, |s|, out)
  {
    var s := Strip(input);
    ScanFacts(s, |s|, |input|);
  }

  /** The output has one entry per input character; entries past the stripped
      string, and the unpaired ones, are -1. */
  lemma ParseShape(input: string)
    requires Parse(input).Ok?
    ensures var out := Parse(input).value;
      && |out| == |input|
      && (forall k :: 0 <= k < |out| ==> -1 <= out[k] < |Strip(input)|)
      && (forall k :: |Strip(input)| <= k < |out| ==> out[k] == -1)
  {
    var s := Strip(input);
    ParseInv(input);
  }

  /** `output[i] == j != -1` implies `output[j] == i`. */
  lemma ParseSymmetric(input: string)
    requires Parse(input).Ok?
    ensures var out := Parse(input).value;
      forall i :: 0 <= i < |out| && out[i] != -1 ==> 0 <= out[i] < |out| && out[i] != i && out[out[i]] == i
  {
    var s := Strip(input);
    ParseInv(input);
  }

  /** `(` pairs only with a later `)`, `[` with `]`, `{` with `}`. */
  lemma ParseMatched(input: string)
    requires Parse(input).Ok?
    ensures var out := Parse(input).value; var s := Strip(input);
      forall i :: 0 <= i < |s| && i < out[i] ==> out[i] < |s| && Matched(s, i, out[i])
  {
    var s := Strip(input);
    ParseInv(input);
    var out := Parse(input).value;
    forall i | 0 <= i < |s| && i < out[i]
      ensures out[i] < |s| && Matched(s, i, out[i])
    {
      assert out[i] != -1;
    }
  }

  /** Every closer is paired with an earlier position, a paired opener with a later
      one, and every `.` stays -1. */
  lemma ParseKinds(input: string)
    requires Parse(input).Ok?
    ensures var out := Parse(input).value; var s := Strip(input);
      && (forall i :: 0 <= i < |s| && IsCloser(s[i]) ==> 0 <= out[i] < i)
      && (forall i :: 0 <= i < |s| && IsOpener(s[i]) && out[i] != -1 ==> i < out[i])
      && (forall i :: 0 <= i < |s| && s[i] == '.' ==> out[i] == -1)
  {
    var s := Strip(input);
    ParseInv(input);
    KindsMean(s, Parse(input).value);
  }

  lemma KindsMean(s: string, out: seq<int>)
    requires |s| <= |out| && Kinds(s, |s|, out)
    ensures forall i :: 0 <= i < |s| && IsCloser(s[i]) ==> 0 <= out[i] < i
    ensures forall i :: 0 <= i < |s| && IsOpener(s[i]) && out[i] != -1 ==> i < out[i]
    ensures forall i :: 0 <= i < |s| && s[i] == '.' ==> out[i] == -1
  {
  }

  /** A closer pairs with the most recent unmatched opener of its kind: any bracket
      of that kind between the two is paired between them. */
  lemma ParseLastInFirstOut(input: string)
    requires Parse(input).Ok?
    ensures var out := Parse(input).value; var s := Strip(input);
      forall c, k :: 0 <= c < |s| && IsCloser(s[c]) && 0 <= out[c] < k < c && IsBracket(s[k]) && KindOf(s[k]) == KindOf(s[c]) ==>
        out[c] < out[k] < c
  {
    var s := Strip(input);
    ParseInv(input);
  }

  /** `parse_dot_bracket` returns exactly when every character is one of `.()[]{}`
      and every closer finds an opener of its kind still open; openers left open
      raise nothing. Otherwise it raises at the first position that breaks this. */
  lemma ParseSucceedsIff(input: string)
    ensures var s := Strip(input);
      Parse(input).Ok? <==> forall j :: 0 <= j < |s| ==> !BadAt(s, j)
    ensures var s := Strip(input);
      Parse(input).Err? ==>
        var e := Parse(input).error;
        && e.pos < |s| && e.c == s[e.pos] && BadAt(s, e.pos)
        && (forall j :: 0 <= j < e.pos ==> !BadAt(s, j))
        && (e.InvalidCharacter? <==> !IsDotBracketChar(s[e.pos]))
  {
    var s := Strip(input);
    ScanFacts(s, |s|, |input|);
    ScanError(s, |s|, |input|);
  }

  // ------------------------------------------------------------ mirroring

  function MirrorChar(c: char): char {
    match c
    case '(' => ')'
    case ')' => '('
    case '[' => ']'
    case ']' => '['
    case '{' => '}'
    case '}' => '{'
    case _ => c
  }

  function Reverse(s: string): (r: string)
    ensures |r| == |s|
  {
    seq(|s|, i requires 0 <= i < |s| => s[|s| - 1 - i])
  }

  /** The string read backwards with every bracket turned round. */
  function Mirror(s: string): (r: string)
    ensures |r| == |s|
  {
    seq(|s|, i requires 0 <= i < |s| => MirrorChar(s[|s| - 1 - i]))
  }

  /** `s.replace(a, b)` for single characters. */
  function Replace(s: string, a: char, b: char): (r: string)
    ensures |r| == |s|
  {
    seq(|s|, i requires 0 <= i < |s| => if s[i] == a then b else s[i])
  }

  /** The reversal of `db_to_forcelist` as written: `[::-1]`, then three swaps, each
      through `&` as a temporary character. */
  function MirrorAsWritten(s: string): (r: string)
    ensures |r| == |s|
  {
    var t := Reverse(s);
    var t := Replace(Replace(Replace(t, '(', '&'), ')', '('), '&', ')');
    var t := Replace(Replace(Replace(t, '[', '&'), ']', '['), '&', ']');
    Replace(Replace(Replace(t, '{', '&'), '}', '{'), '&', '}')
  }

  /** The reversal block of `db_to_forcelist`: reverse, then swap each bracket
      pair through `&`, one `replace` at a time. */
  method ReverseAsWritten(dbStr: string) returns (s: string)
    ensures s == MirrorAsWritten(dbStr)
  {
    s := Reverse(dbStr);
    s := Replace(s, '(', '&');
    s := Replace(s, ')', '(');
    s := Replace(s, '&', ')');
    s := Replace(s, '[', '&');
    s := Replace(s, ']', '[');
    s := Replace(s, '&', ']');
    s := Replace(s, '{', '&');
    s := Replace(s, '}', '{');
    s := Replace(s, '&', '}');
  }

  lemma MirrorCharFacts(c: char)
    ensures MirrorChar(MirrorChar(c)) == c
    ensures IsBracket(c) ==> IsBracket(MirrorChar(c)) && KindOf(MirrorChar(c)) == KindOf(c)
                              && (IsOpener(c) <==> IsCloser(MirrorChar(c)))
    ensures !IsBracket(c) ==> MirrorChar(c) == c
  {
  }

  /** Mirroring twice gives the string back. */
  lemma MirrorInvolution(s: string)
    ensures Mirror(Mirror(s)) == s
  {
    forall i | 0 <= i < |s| ensures Mirror(Mirror(s))[i] == s[i] {
      MirrorCharFacts(s[i]);
    }
  }

  /** Mirroring keeps every character that is not a bracket, so an invalid
      character is still rejected, at the mirrored position. */
  lemma MirrorKeepsOthers(s: string)
    ensures forall i :: 0 <= i < |s| ==>
      && (IsBracket(s[i]) ==> IsBracket(Mirror(s)[|s| - 1 - i]) && KindOf(Mirror(s)[|s| - 1 - i]) == KindOf(s[i])
                               && (IsOpener(s[i]) <==> IsCloser(Mirror(s)[|s| - 1 - i])))
      && (!IsBracket(s[i]) ==> Mirror(s)[|s| - 1 - i] == s[i])
  {
    forall i | 0 <= i < |s| ensures Mirror(s)[|s| - 1 - i] == MirrorChar(s[i]) {
      MirrorCharFacts(s[i]);
    }
    forall i | 0 <= i < |s| {
      MirrorCharFacts(s[i]);
    }
  }

  /** What the replace chain of `MirrorAsWritten` does to one character. */
  function ChainChar(c: char): char {
    var c := if c == '(' then '&' else c;
    var c := if c == ')' then '(' else c;
    var c := if c == '&' then ')' else c;
    var c := if c == '[' then '&' else c;
    var c := if c == ']' then '[' else c;
    var c := if c == '&' then ']' else c;
    var c := if c == '{' then '&' else c;
    var c := if c == '}' then '{' else c;
    if c == '&' then '}' else c
  }

  /** The replace chain works character by character. */
  lemma MirrorAsWrittenAt(s: string, i: nat)
    requires i < |s|
    ensures MirrorAsWritten(s)[i] == ChainChar(s[|s| - 1 - i])
  {
    var t0 := Reverse(s);
    var t1 := Replace(t0, '(', '&');
    var t2 := Replace(t1, ')', '(');
    var t3 := Replace(t2, '&', ')');
    var t4 := Replace(t3, '[', '&');
    var t5 := Replace(t4, ']', '[');
    var t6 := Replace(t5, '&', ']');
    var t7 := Replace(t6, '{', '&');
    var t8 := Replace(t7, '}', '{');
    var t9 := Replace(t8, '&', '}');
    assert MirrorAsWritten(s) == t9;
    assert t0[i] == s[|s| - 1 - i];
  }

  /** Without `&` in the input the replace chain is the mirror. */
  lemma MirrorAsWrittenAgrees(s: string)
    requires '&' !in s
    ensures MirrorAsWritten(s) == Mirror(s)
  {
    forall i | 0 <= i < |s| ensures MirrorAsWritten(s)[i] == Mirror(s)[i] {
      var c := s[|s| - 1 - i];
      assert c in s;
      MirrorAsWrittenAt(s, i);
      ChainCharAgrees(c);
      assert Mirror(s)[i] == MirrorChar(c);
    }
  }

  /** On any character but `&`, the replace chain turns brackets round and keeps
      everything else. */
  lemma ChainCharAgrees(c: char)
    requires c != '&'
    ensures ChainChar(c) == MirrorChar(c)
  {
  }

  /** "&)" is rejected at its first character. */
  lemma ParseAmpersandClose()
    ensures Parse("&)") == Err(InvalidCharacter(0, '&'))
  {
    StripFixed("&)");
    ScanStarts("&)");
    assert "&)"[0] == '&' && !IsDotBracketChar('&');
    StepRejects("&)", 0, ScanState(Stacks([], [], []), [-1, -1]), 2);
    ScanStaysFailed("&)", 1, 2, 2);
  }

  /** A two-character scan starts with empty stacks and an unpaired output. */
  lemma ScanStarts(s: string)
    requires |s| == 2
    ensures Scan(s, 0, 2) == Ok(ScanState(Stacks([], [], []), [-1, -1]))
  {
    var blank: seq<int> := seq(2, _ => -1);
    assert blank == [-1, -1];
  }

  /** A leading "(" is pushed on the round stack. */
  lemma ScanOpensParen(s: string)
    requires |s| == 2 && s[0] == '('
    ensures Scan(s, 1, 2) == Ok(ScanState(Stacks([0], [], []), [-1, -1]))
  {
    ScanStarts(s);
    assert KindOf('(') == Paren;
    StepPushes(s, 0, ScanState(Stacks([], [], []), [-1, -1]), 2);
    assert Stacks([], [], []).Set(Paren, [] + [0]) == Stacks([0], [], []);
  }

  /** "()" is one base pair. */
  lemma ParseOnePair()
    ensures Parse("()") == Ok([1, 0])
  {
    StripFixed("()");
    ScanOpensParen("()");
    assert "()"[1] == ')' && KindOf(')') == Paren;
    StepPops("()", 1, ScanState(Stacks([0], [], []), [-1, -1]), 2);
    assert [-1, -1][1 := 0][0 := 1] == [1, 0];
  }

  /** "(&" is rejected at its second character. */
  lemma ParseOpenAmpersand()
    ensures Parse("(&") == Err(InvalidCharacter(1, '&'))
  {
    StripFixed("(&");
    ScanOpensParen("(&");
    StepRejects("(&", 1, ScanState(Stacks([0], [], []), [-1, -1]), 2);
  }

  /** With `&` in the input the replace chain turns it into `)`: "&)" is rejected
      as it stands but, reversed as written, parses as one base pair, while the
      mirror keeps `&` and is rejected. */
  lemma MirrorAsWrittenAcceptsAmpersand()
    ensures MirrorAsWritten("&)") == "()"
    ensures Parse("&)") == Err(InvalidCharacter(0, '&'))
    ensures Parse(MirrorAsWritten("&)")) == Ok([1, 0])
    ensures Parse(Mirror("&)")) == Err(InvalidCharacter(1, '&'))
  {
    MirrorAsWrittenAt("&)", 0);
    MirrorAsWrittenAt("&)", 1);
    assert MirrorAsWritten("&)") == "()";
    assert "&)"[1] == ')' && "&)"[0] == '&';
    assert Mirror("&)")[0] == MirrorChar(')') == '(';
    assert Mirror("&)")[1] == MirrorChar('&') == '&';
    assert Mirror("&)") == "(&";
    ParseAmpersandClose();
    ParseOnePair();
    ParseOpenAmpersand();
  }

  // ------------------------------------------------------- db_to_forcelist

  /** The arguments given to `mutual_trap` for one nucleotide. */
  datatype MutualTrap = MutualTrap(
    particle: int, refParticle: int, stiff: real, r0: real, pbc: bool, rate: real, stiffRate: real)

  /** The traps for the first `n` entries of a pairing array, in ascending order. */
  function TrapsUpTo(out: seq<int>, n: nat, stiff: real, r0: real, rate: real, stiffRate: real): seq<MutualTrap>
    requires n <= |out|
  {
    if n == 0 then []
    else
      TrapsUpTo(out, n - 1, stiff, r0, rate, stiffRate)
      + (if out[n - 1] != -1 then [MutualTrap(n - 1, out[n - 1], stiff, r0, true, rate, stiffRate)] else [])
  }

  /** The string `db_to_forcelist` parses: when `reverse` is set, the input put
      through the replace chain as written. */
  function Prepared(dbStr: string, reverse: bool): string {
    if reverse then MirrorAsWritten(dbStr) else dbStr
  }

  /** The traps for the pairing of a prepared string, or its parse error. */
  function TrapsFor(s: string, stiff: real, r0: real, rate: real, stiffRate: real): Result<seq<MutualTrap>, ParseError> {
    match Parse(s)
    case Err(e) => Err(e)
    case Ok(out) => Ok(TrapsUpTo(out, |out|, stiff, r0, rate, stiffRate))
  }

  /** What `db_to_forcelist` returns or raises. */
  function ForceList(dbStr: string, stiff: real, reverse: bool, r0: real, rate: real, stiffRate: real)
    : Result<seq<MutualTrap>, ParseError>
  {
    TrapsFor(Prepared(dbStr, reverse), stiff, r0, rate, stiffRate)
  }

  /** `db_to_forcelist`. Its `PBC` argument is accepted but not forwarded: every
      trap gets the literal `True` the source passes. */
  method DbToForceList(dbStr: string, stiff: real, reverse: bool, r0: real := 1.2, pbc: bool := true,
                       rate: real := 0.0, stiffRate: real := 0.0)
    returns (r: Result<seq<MutualTrap>, ParseError>)
    ensures r == ForceList(dbStr, stiff, reverse, r0, rate, stiffRate)
  {
    var s := dbStr;
    if reverse {
      s := ReverseAsWritten(s);
    }
    assert s == Prepared(dbStr, reverse);
    var parsed := ParseDotBracket(s);
    if parsed.Err? {
      TrapsForFailed(s, stiff, r0, rate, stiffRate);
      return Err(parsed.error);
    }
    var dbIdx := parsed.value;
    var forceList: seq<MutualTrap> := [];
    for p := 0 to dbIdx.Length
      invariant forceList == TrapsUpTo(dbIdx[..], p, stiff, r0, rate, stiffRate)
    {
      var q := dbIdx[p];
      if q != -1 {
        forceList := forceList + [MutualTrap(p, q, stiff, r0, true, rate, stiffRate)];
      }
    }
    TrapsForParsed(s, dbIdx[..], stiff, r0, rate, stiffRate);
    return Ok(forceList);
  }

  /** `db_to_forcelist` as evidently intended: reversing turns the brackets round
      and leaves every other character, `&` included, where the parser sees it. */
  function IntendedForceList(dbStr: string, stiff: real, reverse: bool, r0: real, rate: real, stiffRate: real)
    : Result<seq<MutualTrap>, ParseError>
  {
    TrapsFor(if reverse then Mirror(dbStr) else dbStr, stiff, r0, rate, stiffRate)
  }

  /** Without `&` in the input, the source and the intended behaviour agree. */
  lemma IntendedAgrees(dbStr: string, stiff: real, reverse: bool, r0: real, rate: real, stiffRate: real)
    requires '&' !in dbStr
    ensures ForceList(dbStr, stiff, reverse, r0, rate, stiffRate) == IntendedForceList(dbStr, stiff, reverse, r0, rate, stiffRate)
  {
    if reverse {
      MirrorAsWrittenAgrees(dbStr);
    }
  }

  /** As intended, an `&` anywhere in the input is rejected, reversed or not. */
  lemma IntendedRejectsAmpersand(dbStr: string, stiff: real, reverse: bool, r0: real, rate: real, stiffRate: real)
    requires '&' in dbStr
    ensures IntendedForceList(dbStr, stiff, reverse, r0, rate, stiffRate).Err?
  {
    var t := if reverse then Mirror(dbStr) else dbStr;
    if reverse {
      var k :| 0 <= k < |dbStr| && dbStr[k] == '&';
      MirrorKeepsOthers(dbStr);
      assert t[|dbStr| - 1 - k] == '&';
    }
    assert '&' in t;
    StripKeeps(t, '&');
    var s := Strip(t);
    var b :| 0 <= b < |s| && s[b] == '&';
    assert BadAt(s, b);
    ParseSucceedsIff(t);
  }

  /** As written, reversing "&)" gives "()", so the source returns the two traps
      of one base pair where the intended behaviour raises. */
  lemma ForceListAcceptsAmpersand(stiff: real, r0: real, rate: real, stiffRate: real)
    ensures ForceList("&)", stiff, true, r0, rate, stiffRate)
         == Ok([MutualTrap(0, 1, stiff, r0, true, rate, stiffRate), MutualTrap(1, 0, stiff, r0, true, rate, stiffRate)])
    ensures ForceList("&)", stiff, false, r0, rate, stiffRate).Err?
    ensures IntendedForceList("&)", stiff, true, r0, rate, stiffRate).Err?
  {
    MirrorAsWrittenAcceptsAmpersand();
    assert Prepared("&)", true) == "()";
    TrapsOfOnePair(stiff, r0, rate, stiffRate);
  }

  /** "()" gives one trap from each side of its base pair. */
  lemma TrapsOfOnePair(stiff: real, r0: real, rate: real, stiffRate: real)
    ensures TrapsFor("()", stiff, r0, rate, stiffRate)
         == Ok([MutualTrap(0, 1, stiff, r0, true, rate, stiffRate), MutualTrap(1, 0, stiff, r0, true, rate, stiffRate)])
  {
    ParseOnePair();
    TrapsForParsed("()", [1, 0], stiff, r0, rate, stiffRate);
    TrapsOfSwap(stiff, r0, rate, stiffRate);
  }

  lemma TrapsForParsed(s: string, out: seq<int>, stiff: real, r0: real, rate: real, stiffRate: real)
    requires Parse(s) == Ok(out)
    ensures TrapsFor(s, stiff, r0, rate, stiffRate) == Ok(TrapsUpTo(out, |out|, stiff, r0, rate, stiffRate))
  {
  }

  lemma TrapsForFailed(s: string, stiff: real, r0: real, rate: real, stiffRate: real)
    requires Parse(s).Err?
    ensures TrapsFor(s, stiff, r0, rate, stiffRate) == Err(Parse(s).error)
  {
  }

  lemma TrapsOfSwap(stiff: real, r0: real, rate: real, stiffRate: real)
    ensures TrapsUpTo([1, 0], 2, stiff, r0, rate, stiffRate)
         == [MutualTrap(0, 1, stiff, r0, true, rate, stiffRate), MutualTrap(1, 0, stiff, r0, true, rate, stiffRate)]
  {
    assert TrapsUpTo([1, 0], 1, stiff, r0, rate, stiffRate) == [MutualTrap(0, 1, stiff, r0, true, rate, stiffRate)];
  }

  /** The paired indices below `n`. */
  ghost function PairedBelow(out: seq<int>, n: nat): set<int>
    requires n <= |out|
  {
    set p | 0 <= p < n && out[p] != -1
  }

  /** One trap per paired index below `n`. */
  lemma {:induction false} TrapsCount(out: seq<int>, n: nat, stiff: real, r0: real, rate: real, stiffRate: real)
    requires n <= |out|
    ensures |TrapsUpTo(out, n, stiff, r0, rate, stiffRate)| == |PairedBelow(out, n)|
  {
    if n > 0 {
      var m := n - 1;
      TrapsCount(out, m, stiff, r0, rate, stiffRate);
      PairedStep(out, m);
      if out[m] != -1 {
        assert m !in PairedBelow(out, m);
      }
    }
  }

  /** Position `m` joins the paired indices when it is paired. */
  lemma PairedStep(out: seq<int>, m: nat)
    requires m < |out|
    ensures PairedBelow(out, m + 1) == PairedBelow(out, m) + (if out[m] != -1 then {m} else {})
  {
  }

  /** Each trap starts at a paired index below `n`, points at its partner and
      carries the common parameters. */
  lemma {:induction false} TrapsLink(out: seq<int>, n: nat, stiff: real, r0: real, rate: real, stiffRate: real)
    requires n <= |out|
    ensures forall t :: 0 <= t < |TrapsUpTo(out, n, stiff, r0, rate, stiffRate)| ==>
      var trap := TrapsUpTo(out, n, stiff, r0, rate, stiffRate)[t];
      0 <= trap.particle < n && out[trap.particle] != -1
      && trap == MutualTrap(trap.particle, out[trap.particle], stiff, r0, true, rate, stiffRate)
  {
    if n > 0 {
      TrapsLink(out, n - 1, stiff, r0, rate, stiffRate);
      var prev := TrapsUpTo(out, n - 1, stiff, r0, rate, stiffRate);
      var ts := TrapsUpTo(out, n, stiff, r0, rate, stiffRate);
      var m := n - 1;
      var extra := if out[m] != -1 then [MutualTrap(m, out[m], stiff, r0, true, rate, stiffRate)] else [];
      assert ts == prev + extra;
      forall t | 0 <= t < |ts|
        ensures 0 <= ts[t].particle < n && out[ts[t].particle] != -1
        ensures ts[t] == MutualTrap(ts[t].particle, out[ts[t].particle], stiff, r0, true, rate, stiffRate)
      {
        if t < |prev| {
          assert ts[t] == prev[t];
        } else {
          assert ts[t] == extra[0];
        }
      }
    }
  }

  /** The traps are in ascending order of their particle, so no particle gets two. */
  lemma {:induction false} TrapsAscending(out: seq<int>, n: nat, stiff: real, r0: real, rate: real, stiffRate: real)
    requires n <= |out|
    ensures forall t, u :: 0 <= t < u < |TrapsUpTo(out, n, stiff, r0, rate, stiffRate)| ==>
      TrapsUpTo(out, n, stiff, r0, rate, stiffRate)[t].particle < TrapsUpTo(out, n, stiff, r0, rate, stiffRate)[u].particle
  {
    if n > 0 {
      TrapsAscending(out, n - 1, stiff, r0, rate, stiffRate);
      TrapsLink(out, n - 1, stiff, r0, rate, stiffRate);
      var prev := TrapsUpTo(out, n - 1, stiff, r0, rate, stiffRate);
      var ts := TrapsUpTo(out, n, stiff, r0, rate, stiffRate);
      var m := n - 1;
      var extra := if out[m] != -1 then [MutualTrap(m, out[m], stiff, r0, true, rate, stiffRate)] else [];
      assert ts == prev + extra;
      forall t, u | 0 <= t < u < |ts| ensures ts[t].particle < ts[u].particle {
        assert ts[t] == prev[t];
        if u < |prev| {
          assert ts[u] == prev[u];
        } else {
          assert ts[u] == extra[0];
        }
      }
    }
  }

  /** Every paired index below `n` is the particle of one of `ts`. */
  ghost predicate Covers(ts: seq<MutualTrap>, out: seq<int>, n: nat)
    requires n <= |out|
  {
    forall p :: 0 <= p < n && out[p] != -1 ==> exists t :: 0 <= t < |ts| && ts[t].particle == p
  }

  /** Every paired index below `n` has a trap. */
  lemma {:induction false} TrapsCover(out: seq<int>, n: nat, stiff: real, r0: real, rate: real, stiffRate: real)
    requires n <= |out|
    ensures Covers(TrapsUpTo(out, n, stiff, r0, rate, stiffRate), out, n)
  {
    if n > 0 {
      TrapsCover(out, n - 1, stiff, r0, rate, stiffRate);
      var prev := TrapsUpTo(out, n - 1, stiff, r0, rate, stiffRate);
      var ts := TrapsUpTo(out, n, stiff, r0, rate, stiffRate);
      var m := n - 1;
      var extra := if out[m] != -1 then [MutualTrap(m, out[m], stiff, r0, true, rate, stiffRate)] else [];
      assert ts == prev + extra;
      forall p | 0 <= p < n && out[p] != -1 ensures exists t :: 0 <= t < |ts| && ts[t].particle == p {
        if p < m {
          var t :| 0 <= t < |prev| && prev[t].particle == p;
          assert ts[t] == prev[t];
        } else {
          var t := |prev|;
          assert ts[t] == extra[0];
          assert 0 <= t < |ts| && ts[t].particle == p;
        }
      }
    }
  }

  /** Pairing is an involution without fixed points: what `parse_dot_bracket`
      guarantees of its output. */
  ghost predicate SymmetricPairing(out: seq<int>) {
    forall p :: 0 <= p < |out| && out[p] != -1 ==> 0 <= out[p] < |out| && out[p] != p && out[out[p]] == p
  }

  /** The pairs opened below `n`, by their smaller index. */
  ghost function OpenedBelow(out: seq<int>, n: nat): set<int> {
    set p | 0 <= p < n && p < |out| && p < out[p]
  }

  /** The partners of the pairs opened below `n`. */
  ghost function PartnersBelow(out: seq<int>, n: nat): set<int> {
    set p | 0 <= p < n && p < |out| && p < out[p] :: out[p]
  }

  /** Under a symmetric pairing, distinct pairs have distinct partners. */
  lemma {:induction false} PartnersBelowSize(out: seq<int>, n: nat)
    requires n <= |out| && SymmetricPairing(out)
    ensures |PartnersBelow(out, n)| == |OpenedBelow(out, n)|
  {
    if n > 0 {
      var m := n - 1;
      PartnersBelowSize(out, m);
      BelowStep(out, m);
      if m < out[m] {
        PartnerFresh(out, m);
        assert m !in OpenedBelow(out, m);
      }
    }
  }

  /** Position `m` adds its pair, and that pair's partner, when it opens one. */
  lemma BelowStep(out: seq<int>, m: nat)
    requires m < |out|
    ensures OpenedBelow(out, m + 1) == OpenedBelow(out, m) + (if m < out[m] then {m} else {})
    ensures PartnersBelow(out, m + 1) == PartnersBelow(out, m) + (if m < out[m] then {out[m]} else {})
  {
  }

  /** The partner of a pair opened at `m` is no earlier pair's partner. */
  lemma PartnerFresh(out: seq<int>, m: nat)
    requires m < |out| && SymmetricPairing(out) && m < out[m]
    ensures out[m] !in PartnersBelow(out, m)
  {
    forall p | 0 <= p < m && p < out[p] ensures out[p] != out[m] {
      assert out[out[p]] == p;
    }
  }

  /** The base pairs of a pairing array: each pair once, by its smaller index. */
  ghost function BasePairs(out: seq<int>): set<int> {
    set p | 0 <= p < |out| && p < out[p]
  }

  /** Under a symmetric pairing there are two traps per base pair, one from each side. */
  lemma TrapsPerPair(out: seq<int>, stiff: real, r0: real, rate: real, stiffRate: real)
    requires SymmetricPairing(out)
    ensures |TrapsUpTo(out, |out|, stiff, r0, rate, stiffRate)| == 2 * |BasePairs(out)|
  {
    TrapsCount(out, |out|, stiff, r0, rate, stiffRate);
    var lo := BasePairs(out);
    var hi := set p | 0 <= p < |out| && 0 <= out[p] < p;
    assert PairedBelow(out, |out|) == lo + hi;
    assert lo !! hi;
    assert lo == OpenedBelow(out, |out|);
    assert hi == PartnersBelow(out, |out|) by {
      forall p | p in hi ensures p in PartnersBelow(out, |out|) {
        var q := out[p];
        assert 0 <= q < |out| && q < out[q] && out[q] == p;
      }
    }
    PartnersBelowSize(out, |out|);
  }

  /** The same trap pointing the other way. */
  function Reversed(trap: MutualTrap): (r: MutualTrap)
    ensures r.particle == trap.refParticle && r.refParticle == trap.particle
    ensures r.(particle := trap.particle, refParticle := trap.refParticle) == trap
  {
    trap.(particle := trap.refParticle, refParticle := trap.particle)
  }

  /** Each trap of `ts` from `p` to `q` has its counterpart from `q` to `p`. */
  ghost predicate ComeInPairs(ts: seq<MutualTrap>) {
    forall t :: 0 <= t < |ts| ==> Reversed(ts[t]) in ts
  }

  /** Traps that link paired indices with common parameters and cover every
      paired index come in pairs when the pairing is symmetric. */
  lemma LinkedTrapsPair(ts: seq<MutualTrap>, out: seq<int>, stiff: real, r0: real, rate: real, stiffRate: real)
    requires SymmetricPairing(out) && Covers(ts, out, |out|)
    requires forall t :: 0 <= t < |ts| ==>
      0 <= ts[t].particle < |out| && out[ts[t].particle] != -1
      && ts[t] == MutualTrap(ts[t].particle, out[ts[t].particle], stiff, r0, true, rate, stiffRate)
    ensures ComeInPairs(ts)
  {
    forall t | 0 <= t < |ts|
      ensures Reversed(ts[t]) in ts
    {
      var p := ts[t].particle;
      var q := out[p];
      assert 0 <= q < |out| && out[q] == p != -1;
      var u :| 0 <= u < |ts| && ts[u].particle == q;
      assert ts[u] == Reversed(ts[t]);
    }
  }

  /** Under a symmetric pairing every trap has its counterpart. */
  lemma TrapsSymmetric(out: seq<int>, stiff: real, r0: real, rate: real, stiffRate: real)
    requires SymmetricPairing(out)
    ensures ComeInPairs(TrapsUpTo(out, |out|, stiff, r0, rate, stiffRate))
  {
    TrapsLink(out, |out|, stiff, r0, rate, stiffRate);
    TrapsCover(out, |out|, stiff, r0, rate, stiffRate);
    LinkedTrapsPair(TrapsUpTo(out, |out|, stiff, r0, rate, stiffRate), out, stiff, r0, rate, stiffRate);
  }

  /** The pairing `db_to_forcelist` turns into traps is symmetric. */
  lemma ForceListPairing(dbStr: string, stiff: real, reverse: bool, r0: real, rate: real, stiffRate: real)
    requires ForceList(dbStr, stiff, reverse, r0, rate, stiffRate).Ok?
    ensures SymmetricPairing(Parse(Prepared(dbStr, reverse)).value)
    ensures var out := Parse(Prepared(dbStr, reverse)).value;
      ForceList(dbStr, stiff, reverse, r0, rate, stiffRate).value == TrapsUpTo(out, |out|, stiff, r0, rate, stiffRate)
  {
    ParseSymmetric(Prepared(dbStr, reverse));
  }

  /** `db_to_forcelist` emits two traps per base pair, one from each side. */
  lemma TrapCount(dbStr: string, stiff: real, reverse: bool, r0: real, rate: real, stiffRate: real)
    requires ForceList(dbStr, stiff, reverse, r0, rate, stiffRate).Ok?
    ensures |ForceList(dbStr, stiff, reverse, r0, rate, stiffRate).value| == 2 * |BasePairs(Parse(Prepared(dbStr, reverse)).value)|
  {
    ForceListPairing(dbStr, stiff, reverse, r0, rate, stiffRate);
    TrapsPerPair(Parse(Prepared(dbStr, reverse)).value, stiff, r0, rate, stiffRate);
  }

  /** Every trap `db_to_forcelist` emits from `p` to `q` has its counterpart from `q` to `p`. */
  lemma TrapsComeInPairs(dbStr: string, stiff: real, reverse: bool, r0: real, rate: real, stiffRate: real)
    requires ForceList(dbStr, stiff, reverse, r0, rate, stiffRate).Ok?
    ensures ComeInPairs(ForceList(dbStr, stiff, reverse, r0, rate, stiffRate).value)
  {
    ForceListPairing(dbStr, stiff, reverse, r0, rate, stiffRate);
    TrapsSymmetric(Parse(Prepared(dbStr, reverse)).value, stiff, r0, rate, stiffRate);
  }
}
