/**
 * The forces file written by generate_force.py, read back by forces2pairs.py:
 * every trap block splits into eight lines, the lines decode the same wherever
 * they stand in the file, and folding the registers over the blocks of the
 * pairs `ps` (each with first < second) collects exactly `ps`.
 */
module ForceRoundTrip {
  import opened Results
  import opened Text
  import opened ForcePairs
  import GenerateForce

  /** A stiffness text the template can carry: a non-empty run of characters that
      are neither whitespace nor `}` nor `_`, as `str` of a float is. */
  predicate Token(s: string) {
    |s| > 0 && forall k :: 0 <= k < |s| ==> !IsSpace(s[k]) && s[k] != '}' && s[k] != '_'
  }

  /** A line as `readlines` returns it: ending in its only line break. */
  predicate IsLine(l: string) {
    |l| > 0 && l[|l| - 1] == '\n' && '\n' !in l[..|l| - 1]
  }

  /** `str(i)`: a non-empty run of digits and minus signs. */
  predicate Numeral(n: string) {
    |n| > 0 && forall k :: 0 <= k < |n| ==> IsDigit(n[k]) || n[k] == '-'
  }

  lemma NumeralOf(i: int)
    ensures Numeral(IntToString(i))
  {
    IntToStringShape(i);
  }

  /** The fixed lines of the template, without their line breaks. */
  datatype Bodies = Bodies(open: string, kind: string, distance: string, pbc: string, close: string)

  /** generate_force.py's template: `{ `, `type = mutual_trap`, `r0 = 1.2`, `PBC=1`, `}`. */
  const Template := Bodies("{", "type = mutual_trap", "r0 = 1.2", "PBC=1", "}")

  /** The eight lines of one trap block, with fixed lines `f` and the particle numerals `a`, `b`. */
  function BlockLines(f: Bodies, a: string, s: string, b: string): seq<string> {
    [f.open + " " + "\n", f.kind + "\n", ("particle" + " = ") + a + "\n", "stiff = " + s + "\n",
     f.distance + "\n", ("ref_particle" + " = ") + b + "\n", f.pbc + "\n", f.close + "\n"]
  }

  /** The lines of the block written for `(p, q)`. */
  function NumberedBlock(p: int, s: string, q: int): seq<string> {
    BlockLines(Template, IntToString(p), s, IntToString(q))
  }

  /** A stripped fixed line that sets nothing: not starting with `p`, without `c`
      (so not holding `ref_particle`) and without `}`. */
  predicate QuietBody(t: string) {
    |t| > 0 && !IsSpace(t[0]) && !IsSpace(t[|t| - 1]) && t[0] != 'p'
    && 'c' !in t && '}' !in t && '\n' !in t
  }

  /** A stripped fixed line that closes the block and sets nothing. */
  predicate CloseBody(t: string) {
    |t| > 0 && !IsSpace(t[0]) && !IsSpace(t[|t| - 1]) && t[0] != 'p'
    && 'c' !in t && '}' in t && '\n' !in t
  }

  predicate BodiesFit(f: Bodies) {
    QuietBody(f.open) && QuietBody(f.kind) && QuietBody(f.distance) && QuietBody(f.pbc)
    && CloseBody(f.close)
  }

  lemma TemplateFits()
    ensures BodiesFit(Template)
  {
    OpenFits();
    KindFits();
    DistanceFits();
    PbcFits();
    CloseFits();
  }

  lemma OpenFits() ensures QuietBody("{") {}
  lemma KindFits() ensures QuietBody("type = mutual_trap") {}
  lemma DistanceFits() ensures QuietBody("r0 = 1.2") {}
  lemma PbcFits() ensures QuietBody("PBC=1") {}
  lemma CloseFits() ensures CloseBody("}") {}

  /** What those eight lines mean to `forces2pairs` when the numerals read as `p` and `q`. */
  function BlockMeaning(p: int, q: int): seq<Line> {
    [QuietLine, QuietLine, Line(Some(Ok(p)), None, false), QuietLine,
     QuietLine, Line(None, Some(Ok(q)), false), QuietLine, CloseLine]
  }

  // ------------------------------------------------------------ text

  lemma Concat8(ls: seq<string>)
    requires |ls| == 8
    ensures Concat(ls) == ls[0] + (ls[1] + (ls[2] + (ls[3] + (ls[4] + (ls[5] + (ls[6] + ls[7]))))))
  {
    assert Concat(ls[8..]) == "";
    assert Concat(ls[7..]) == ls[7] + Concat(ls[8..]);
    assert Concat(ls[6..]) == ls[6] + Concat(ls[7..]);
    assert Concat(ls[5..]) == ls[5] + Concat(ls[6..]);
    assert Concat(ls[4..]) == ls[4] + Concat(ls[5..]);
    assert Concat(ls[3..]) == ls[3] + Concat(ls[4..]);
    assert Concat(ls[2..]) == ls[2] + Concat(ls[3..]);
    assert Concat(ls[1..]) == ls[1] + Concat(ls[2..]);
    assert ls[7] + "" == ls[7];
  }

  /** Where the template's pieces break into lines. */
  lemma TemplateLines()
    ensures GenerateForce.TrapTemplate[0] == (Template.open + " " + "\n") + (Template.kind + "\n") + ("particle" + " = ")
    ensures GenerateForce.TrapTemplate[1] == "\n" + "stiff = "
    ensures GenerateForce.TrapTemplate[2] == "\n" + (Template.distance + "\n") + ("ref_particle" + " = ")
    ensures GenerateForce.TrapTemplate[3] == "\n" + (Template.pbc + "\n") + (Template.close + "\n")
  {
    TemplateHead();
    TemplateMiddle();
    TemplateTail();
  }

  lemma TemplateHead()
    ensures GenerateForce.TrapTemplate[0] == (Template.open + " " + "\n") + (Template.kind + "\n") + ("particle" + " = ")
  {
    HeadFirst();
    HeadRest();
    HeadPieces();
  }

  lemma HeadFirst()
    ensures GenerateForce.TrapTemplate[0] == "{ \n" + "type = mutual_trap\nparticle = "
  {
  }

  lemma HeadRest()
    ensures "type = mutual_trap\nparticle = " == "type = mutual_trap\n" + "particle = "
  {
  }

  lemma HeadPieces()
    ensures "{ \n" == Template.open + " " + "\n"
    ensures "type = mutual_trap\n" == Template.kind + "\n"
  {
  }

  lemma TemplateMiddle()
    ensures GenerateForce.TrapTemplate[2] == "\n" + (Template.distance + "\n") + ("ref_particle" + " = ")
  {
  }

  lemma TemplateTail()
    ensures GenerateForce.TrapTemplate[3] == "\n" + (Template.pbc + "\n") + (Template.close + "\n")
  {
  }

  lemma FormatThree(t: seq<string>, a: string, s: string, b: string)
    requires |t| == 4
    ensures Format(t, [a, s, b]) == t[0] + a + t[1] + s + t[2] + b + t[3]
  {
    var args := [a, s, b];
    assert t[..3][..2][..1] == [t[0]];
    assert Format(t[..1], []) == t[0];
    assert Format(t[..2], [a]) == t[0] + a + t[1];
    assert [a, s][..1] == [a] && t[..3][..2] == t[..2] && args[..2] == [a, s];
    assert Format(t[..3], [a, s]) == Format(t[..2], [a]) + s + t[2];
  }

  lemma Regroup(l0: string, l1: string, pa: string, a: string, n: string, st: string, s: string,
                l4: string, rp: string, b: string, l6: string, l7: string)
    ensures (l0 + l1 + pa) + a + (n + st) + s + (n + l4 + rp) + b + (n + l6 + l7)
         == l0 + (l1 + ((pa + a + n) + ((st + s + n) + (l4 + ((rp + b + n) + (l6 + l7))))))
  {
  }

  /** A formatted block is its eight lines written one after the other. */
  lemma BlockText(p: int, s: string, q: int)
    ensures GenerateForce.TrapBlock(p, s, q) == Concat(NumberedBlock(p, s, q))
  {
    var a, b := IntToString(p), IntToString(q);
    FormatThree(GenerateForce.TrapTemplate, a, s, b);
    TemplateLines();
    var f := Template;
    Concat8(BlockLines(f, a, s, b));
    Regroup(f.open + " " + "\n", f.kind + "\n", ("particle" + " = "), a, "\n", "stiff = ", s,
            f.distance + "\n", ("ref_particle" + " = "), b, f.pbc + "\n", f.close + "\n");
  }

  /** `readlines` splits lines written one after the other back into those lines. */
  lemma {:induction false} ReadLinesOfLines(ls: seq<string>)
    requires forall k :: 0 <= k < |ls| ==> IsLine(ls[k])
    ensures ReadLines(Concat(ls)) == ls
  {
    if |ls| > 0 {
      var l := ls[0];
      var body := l[..|l| - 1];
      assert l == body + "\n";
      ReadLinesOfLines(ls[1..]);
      ReadLinesCons(body, Concat(ls[1..]));
      assert [l] + ls[1..] == ls;
    }
  }

  lemma LineOf(body: string)
    requires '\n' !in body
    ensures IsLine(body + "\n")
  {
    assert (body + "\n")[..|body|] == body;
  }

  lemma Lines8(ls: seq<string>)
    requires |ls| == 8
    requires IsLine(ls[0]) && IsLine(ls[1]) && IsLine(ls[2]) && IsLine(ls[3])
    requires IsLine(ls[4]) && IsLine(ls[5]) && IsLine(ls[6]) && IsLine(ls[7])
    ensures forall k :: 0 <= k < 8 ==> IsLine(ls[k])
  {
  }

  lemma FixedLinesAreLines(f: Bodies)
    requires BodiesFit(f)
    ensures IsLine(f.open + " " + "\n") && IsLine(f.kind + "\n") && IsLine(f.distance + "\n")
    ensures IsLine(f.pbc + "\n") && IsLine(f.close + "\n")
  {
    LineOf(f.open + " ");
    LineOf(f.kind);
    LineOf(f.distance);
    LineOf(f.pbc);
    LineOf(f.close);
  }

  lemma FieldLinesAreLines(a: string, s: string, b: string)
    requires Numeral(a) && Numeral(b) && Token(s)
    ensures IsLine(("particle" + " = ") + a + "\n") && IsLine("stiff = " + s + "\n")
    ensures IsLine(("ref_particle" + " = ") + b + "\n")
  {
    assert '\n' !in a && '\n' !in s && '\n' !in b;
    LineOf(("particle" + " = ") + a);
    LineOf("stiff = " + s);
    LineOf(("ref_particle" + " = ") + b);
  }

  lemma BlockLinesAreLines(f: Bodies, a: string, s: string, b: string)
    requires BodiesFit(f) && Numeral(a) && Numeral(b) && Token(s)
    ensures forall k :: 0 <= k < 8 ==> IsLine(BlockLines(f, a, s, b)[k])
  {
    FixedLinesAreLines(f);
    FieldLinesAreLines(a, s, b);
    Lines8(BlockLines(f, a, s, b));
  }

  // ------------------------------------------------------------ decoding

  /** The position of the first `c` in `a + b`, when `a` has none. */
  lemma {:induction false} IndexOfAfter(a: string, b: string, c: char)
    requires c !in a && c in b
    ensures c in a + b && IndexOf(a + b, c) == |a| + IndexOf(b, c)
  {
    if |a| > 0 {
      assert (a + b)[1..] == a[1..] + b;
      IndexOfAfter(a[1..], b, c);
    } else {
      assert a + b == b;
    }
  }

  lemma PrefixOf(p: string, x: string)
    ensures StartsWith(p + x, p)
  {
    assert (p + x)[..|p|] == p;
  }

  /** A single leading space is stripped. */
  lemma StripLeadingSpace(t: string)
    requires |t| > 0 && !IsSpace(t[0]) && !IsSpace(t[|t| - 1])
    ensures Strip(" " + t) == t
  {
    assert (" " + t)[1..] == t;
    assert StripLeft(" " + t) == StripLeft(t);
    StripFixed(t);
  }

  /** The characters the keys and the numerals lack. */
  lemma KeyChars()
    ensures '=' !in "particle" && '=' !in "ref_particle"
    ensures '_' !in ("particle" + " = ") && '}' !in ("particle" + " = ") && '}' !in ("ref_particle" + " = ")
    ensures '_' !in "stiff = " && '}' !in "stiff = "
  {
  }

  lemma NumeralChars(n: string)
    requires Numeral(n)
    ensures '=' !in n && '_' !in n && '}' !in n && '\n' !in n
    ensures !IsSpace(n[0]) && !IsSpace(n[|n| - 1])
  {
  }

  /** `line.split("=")[1]` on `key = <n>`. */
  lemma FieldOfKey(key: string, n: string)
    requires '=' !in key && '=' !in n
    ensures FieldAfter(key + " = " + n, '=') == Some(" " + n)
  {
    var l := key + " = " + n;
    assert l == (key + " ") + ("= " + n);
    IndexOfAfter(key + " ", "= " + n, '=');
    assert l[|key| + 2..] == " " + n;
    assert '=' !in " " + n;
  }

  /** The space after `=` does not change the number read. */
  lemma SpacedNumber(n: string)
    requires |n| > 0 && !IsSpace(n[0]) && !IsSpace(n[|n| - 1])
    ensures ParseFloatAsInt(" " + n) == ParseFloatAsInt(n)
  {
    StripLeadingSpace(n);
    StripFixed(n);
  }

  /** `int(float(line.split("=")[1]))` on `key = <n>`, where `n` reads as `v`. */
  lemma ReadsNumeral(key: string, n: string, v: int, idx: nat)
    requires '=' !in key && Numeral(n) && ParseFloatAsInt(n) == Some(v)
    ensures ReadField(key + " = " + n, idx) == Ok(v)
  {
    NumeralChars(n);
    FieldOfKey(key, n);
    SpacedNumber(n);
  }

  lemma DecodeParticle(n: string, idx: nat)
    requires Numeral(n)
    ensures Decode(("particle" + " = ") + n + "\n", idx) == Line(Some(ReadField(("particle" + " = ") + n, idx)), None, false)
  {
    KeyChars();
    NumeralChars(n);
    var body := ("particle" + " = ") + n;
    assert body[|body| - 1] == n[|n| - 1];
    StripLineBreak(body);
    assert body == "particle" + (" = " + n);
    PrefixOf("particle", " = " + n);
    NotContainsMissingChar(body, "ref_particle", '_');
    assert !Closes(body);
  }

  lemma DecodeRefParticle(n: string, idx: nat)
    requires Numeral(n)
    ensures Decode(("ref_particle" + " = ") + n + "\n", idx) == Line(None, Some(ReadField(("ref_particle" + " = ") + n, idx)), false)
  {
    KeyChars();
    NumeralChars(n);
    var body := ("ref_particle" + " = ") + n;
    assert body[|body| - 1] == n[|n| - 1];
    StripLineBreak(body);
    assert body == "ref_particle" + (" = " + n);
    assert !SetsA(body) by {
      assert body[..8][0] == 'r';
    }
    PrefixOf("ref_particle", " = " + n);
    ContainsPrefix(body, "ref_particle");
    assert !Closes(body);
  }

  lemma DecodeStiff(s: string, idx: nat)
    requires Token(s)
    ensures Decode("stiff = " + s + "\n", idx) == QuietLine
  {
    KeyChars();
    var body := "stiff = " + s;
    assert body[|body| - 1] == s[|s| - 1];
    StripLineBreak(body);
    assert body[0] != 'p';
    assert '_' !in s;
    NotContainsMissingChar(body, "ref_particle", '_');
    assert !Closes(body);
  }

  /** A stripped line that neither starts with `particle` nor holds
      `ref_particle` sets nothing. */
  lemma DecodeStripped(line: string, t: string, idx: nat)
    requires Strip(line) == t && |t| > 0 && t[0] != 'p' && 'c' !in t
    ensures Decode(line, idx) == Line(None, None, '}' in t)
  {
    assert !SetsA(t) by {
      if 8 <= |t| {
        assert t[..8][0] == t[0];
      }
    }
    NotContainsMissingChar(t, "ref_particle", 'c');
  }

  /** A fixed line that sets nothing. */
  lemma DecodeQuiet(t: string, idx: nat)
    requires QuietBody(t)
    ensures Decode(t + "\n", idx) == QuietLine
  {
    StripLineBreak(t);
    DecodeStripped(t + "\n", t, idx);
  }

  /** A space and a line break after a stripped text are stripped. */
  lemma StripSpaceBreak(t: string)
    requires |t| > 0 && !IsSpace(t[0]) && !IsSpace(t[|t| - 1])
    ensures Strip(t + " " + "\n") == t
  {
    var l := t + " " + "\n";
    assert StripLeft(l) == l;
    assert l[..|l| - 1] == t + " ";
    assert (t + " ")[..|t|] == t;
    assert StripRight(l) == StripRight(t + " ") == StripRight(t);
    StripFixed(t);
  }

  /** The same, followed by a space before its line break. */
  lemma DecodeQuietSpaced(t: string, idx: nat)
    requires QuietBody(t)
    ensures Decode(t + " " + "\n", idx) == QuietLine
  {
    StripSpaceBreak(t);
    DecodeStripped(t + " " + "\n", t, idx);
  }

  /** A fixed line that closes the block. */
  lemma DecodeClosing(t: string, idx: nat)
    requires CloseBody(t)
    ensures Decode(t + "\n", idx) == CloseLine
  {
    StripLineBreak(t);
    DecodeStripped(t + "\n", t, idx);
  }

  /** `dec` applied to the lines `ls`, each with its line number, counting from `at`. */
  function Numbered(dec: (string, nat) -> Line, ls: seq<string>, at: nat): (ds: seq<Line>)
    ensures |ds| == |ls|
    ensures forall j :: 0 <= j < |ls| ==> ds[j] == dec(ls[j], at + j)
  {
    seq(|ls|, j requires 0 <= j < |ls| => dec(ls[j], at + j))
  }

  lemma NumberedAppend(dec: (string, nat) -> Line, xs: seq<string>, ys: seq<string>, at: nat)
    ensures Numbered(dec, xs + ys, at) == Numbered(dec, xs, at) + Numbered(dec, ys, at + |xs|)
  {
    var l, r := Numbered(dec, xs + ys, at), Numbered(dec, xs, at) + Numbered(dec, ys, at + |xs|);
    forall j | 0 <= j < |xs + ys|
      ensures l[j] == r[j]
    {
      if j < |xs| {
        assert (xs + ys)[j] == xs[j];
      } else {
        assert (xs + ys)[j] == ys[j - |xs|];
      }
    }
  }

  /** The lines `ls` decoded, standing from line number `at` on. */
  function DecodeFrom(ls: seq<string>, at: nat): seq<Line> {
    Numbered(Decode, ls, at)
  }

  /** A block's text pieces and the numbers its numerals read as. */
  datatype Block = Block(f: Bodies, a: string, s: string, b: string, p: int, q: int)

  /** Line `j` of a block, standing at line number `at`, means line `j` of `BlockMeaning`. */
  ghost predicate LineMeans(k: Block, j: int, at: nat)
    requires 0 <= j < 8
  {
    Decode(BlockLines(k.f, k.a, k.s, k.b)[j], at) == BlockMeaning(k.p, k.q)[j]
  }

  lemma Line0(k: Block, at: nat)
    requires QuietBody(k.f.open)
    ensures LineMeans(k, 0, at)
  {
    DecodeQuietSpaced(k.f.open, at);
  }

  lemma Line1(k: Block, at: nat)
    requires QuietBody(k.f.kind)
    ensures LineMeans(k, 1, at)
  {
    DecodeQuiet(k.f.kind, at);
  }

  lemma Line2(k: Block, at: nat)
    requires Numeral(k.a) && ParseFloatAsInt(k.a) == Some(k.p)
    ensures LineMeans(k, 2, at)
  {
    KeyChars();
    ReadsNumeral("particle", k.a, k.p, at);
    DecodeParticle(k.a, at);
    DisplayAt(k.f.open + " " + "\n", k.f.kind + "\n", ("particle" + " = ") + k.a + "\n", "stiff = " + k.s + "\n",
              k.f.distance + "\n", ("ref_particle" + " = ") + k.b + "\n", k.f.pbc + "\n", k.f.close + "\n");
    DisplayAt(QuietLine, QuietLine, Line(Some(Ok(k.p)), None, false), QuietLine,
              QuietLine, Line(None, Some(Ok(k.q)), false), QuietLine, CloseLine);
  }

  lemma DisplayAt<T>(a0: T, a1: T, a2: T, a3: T, a4: T, a5: T, a6: T, a7: T)
    ensures [a0, a1, a2, a3, a4, a5, a6, a7][2] == a2
    ensures [a0, a1, a2, a3, a4, a5, a6, a7][5] == a5
  {
  }

  lemma Line3(k: Block, at: nat)
    requires Token(k.s)
    ensures LineMeans(k, 3, at)
  {
    DecodeStiff(k.s, at);
  }

  lemma Line4(k: Block, at: nat)
    requires QuietBody(k.f.distance)
    ensures LineMeans(k, 4, at)
  {
    DecodeQuiet(k.f.distance, at);
  }

  lemma Line5(k: Block, at: nat)
    requires Numeral(k.b) && ParseFloatAsInt(k.b) == Some(k.q)
    ensures LineMeans(k, 5, at)
  {
    KeyChars();
    ReadsNumeral("ref_particle", k.b, k.q, at);
    DecodeRefParticle(k.b, at);
    DisplayAt(k.f.open + " " + "\n", k.f.kind + "\n", ("particle" + " = ") + k.a + "\n", "stiff = " + k.s + "\n",
              k.f.distance + "\n", ("ref_particle" + " = ") + k.b + "\n", k.f.pbc + "\n", k.f.close + "\n");
    DisplayAt(QuietLine, QuietLine, Line(Some(Ok(k.p)), None, false), QuietLine,
              QuietLine, Line(None, Some(Ok(k.q)), false), QuietLine, CloseLine);
  }

  lemma Line6(k: Block, at: nat)
    requires QuietBody(k.f.pbc)
    ensures LineMeans(k, 6, at)
  {
    DecodeQuiet(k.f.pbc, at);
  }

  lemma Line7(k: Block, at: nat)
    requires CloseBody(k.f.close)
    ensures LineMeans(k, 7, at)
  {
    DecodeClosing(k.f.close, at);
  }

  /** Eight lines numbered from `at` on, given what each one means. */
  lemma Numbered8(dec: (string, nat) -> Line, ls: seq<string>, ds: seq<Line>, at: nat)
    requires |ls| == 8 && |ds| == 8
    requires dec(ls[0], at) == ds[0] && dec(ls[1], at + 1) == ds[1]
    requires dec(ls[2], at + 2) == ds[2] && dec(ls[3], at + 3) == ds[3]
    requires dec(ls[4], at + 4) == ds[4] && dec(ls[5], at + 5) == ds[5]
    requires dec(ls[6], at + 6) == ds[6] && dec(ls[7], at + 7) == ds[7]
    ensures Numbered(dec, ls, at) == ds
  {
    var r := Numbered(dec, ls, at);
    assert at + 0 == at;
    assert r[0] == ds[0] && r[1] == ds[1] && r[2] == ds[2] && r[3] == ds[3];
    assert r[4] == ds[4] && r[5] == ds[5] && r[6] == ds[6] && r[7] == ds[7];
  }

  /** Every line of a block means what `BlockMeaning` says, wherever the block stands. */
  lemma BlockMeans(f: Bodies, a: string, s: string, b: string, p: int, q: int, at: nat)
    requires BodiesFit(f) && Numeral(a) && Numeral(b) && Token(s)
    requires ParseFloatAsInt(a) == Some(p) && ParseFloatAsInt(b) == Some(q)
    ensures DecodeFrom(BlockLines(f, a, s, b), at) == BlockMeaning(p, q)
  {
    var k := Block(f, a, s, b, p, q);
    Line0(k, at);
    Line1(k, at + 1);
    Line2(k, at + 2);
    Line3(k, at + 3);
    Line4(k, at + 4);
    Line5(k, at + 5);
    Line6(k, at + 6);
    Line7(k, at + 7);
    Numbered8(Decode, BlockLines(f, a, s, b), BlockMeaning(p, q), at);
  }

  /** The block written for `(p, q)` means: set `a` to `p`, set `b` to `q`, close. */
  lemma NumberedBlockMeans(p: int, s: string, q: int, at: nat)
    requires Token(s)
    ensures DecodeFrom(NumberedBlock(p, s, q), at) == BlockMeaning(p, q)
  {
    NumeralOf(p);
    NumeralOf(q);
    ParseFloatAsIntRoundTrip(p);
    ParseFloatAsIntRoundTrip(q);
    TemplateFits();
    BlockMeans(Template, IntToString(p), s, IntToString(q), p, q, at);
  }

  /** Decoding from the top is what `DecodeAll` does. */
  lemma DecodeFromTop(ls: seq<string>)
    ensures DecodeAll(ls) == DecodeFrom(ls, 0)
  {
    forall j | 0 <= j < |ls|
      ensures DecodeAll(ls)[j] == DecodeFrom(ls, 0)[j]
    {
    }
  }

  // ------------------------------------------------------------ the whole file

  /** The lines of the blocks for `ps`, two blocks per pair. */
  function FileLines(ps: seq<(int, int)>, s: string): seq<string> {
    if |ps| == 0 then []
    else
      var p := ps[|ps| - 1];
      FileLines(ps[..|ps| - 1], s) + NumberedBlock(p.0, s, p.1) + NumberedBlock(p.1, s, p.0)
  }

  /** What those lines mean. */
  function FileMeaning(ps: seq<(int, int)>): seq<Line> {
    if |ps| == 0 then []
    else
      var p := ps[|ps| - 1];
      FileMeaning(ps[..|ps| - 1]) + BlockMeaning(p.0, p.1) + BlockMeaning(p.1, p.0)
  }

  /** Two texts that join to the same string keep doing so when two more equal pieces are added. */
  lemma ConcatPair(xs: seq<string>, b1: string, b2: string, ys: seq<string>, l1: seq<string>, l2: seq<string>)
    requires Concat(xs) == Concat(ys) && b1 == Concat(l1) && b2 == Concat(l2)
    ensures Concat(xs + [b1, b2]) == Concat(ys + l1 + l2)
  {
    ConcatAppend(xs, [b1, b2]);
    assert Concat([b1, b2]) == b1 + b2 by {
      assert [b1, b2][1..] == [b2];
      assert Concat([b2]) == b2 + Concat([]);
    }
    ConcatAppend(ys + l1, l2);
    ConcatAppend(ys, l1);
  }

  lemma {:induction false} FileText(ps: seq<(int, int)>, s: string)
    ensures Concat(GenerateForce.TrapLines(ps, s)) == Concat(FileLines(ps, s))
  {
    if |ps| > 0 {
      var p := ps[|ps| - 1];
      var init := ps[..|ps| - 1];
      FileText(init, s);
      BlockText(p.0, s, p.1);
      BlockText(p.1, s, p.0);
      ConcatPair(GenerateForce.TrapLines(init, s), GenerateForce.TrapBlock(p.0, s, p.1), GenerateForce.TrapBlock(p.1, s, p.0),
                 FileLines(init, s), NumberedBlock(p.0, s, p.1), NumberedBlock(p.1, s, p.0));
    }
  }

  lemma {:induction false} FileLinesAreLines(ps: seq<(int, int)>, s: string)
    requires Token(s)
    ensures forall k :: 0 <= k < |FileLines(ps, s)| ==> IsLine(FileLines(ps, s)[k])
  {
    if |ps| > 0 {
      var p := ps[|ps| - 1];
      FileLinesAreLines(ps[..|ps| - 1], s);
      NumeralOf(p.0);
      NumeralOf(p.1);
      TemplateFits();
      BlockLinesAreLines(Template, IntToString(p.0), s, IntToString(p.1));
      BlockLinesAreLines(Template, IntToString(p.1), s, IntToString(p.0));
    }
  }

  /** Blocks that each mean their `BlockMeaning`, wherever they stand, make a
      file that means `FileMeaning`. */
  lemma {:induction false} FileMeansWith(dec: (string, nat) -> Line, ps: seq<(int, int)>, s: string)
    requires forall p, q, at :: Numbered(dec, NumberedBlock(p, s, q), at) == BlockMeaning(p, q)
    ensures Numbered(dec, FileLines(ps, s), 0) == FileMeaning(ps)
  {
    if |ps| > 0 {
      var p := ps[|ps| - 1];
      var init := ps[..|ps| - 1];
      var xs, first, second := FileLines(init, s), NumberedBlock(p.0, s, p.1), NumberedBlock(p.1, s, p.0);
      FileMeansWith(dec, init, s);
      NumberedAppend(dec, xs + first, second, 0);
      NumberedAppend(dec, xs, first, 0);
    }
  }

  lemma FileMeans(ps: seq<(int, int)>, s: string)
    requires Token(s)
    ensures DecodeFrom(FileLines(ps, s), 0) == FileMeaning(ps)
  {
    forall p, q, at: nat
      ensures Numbered(Decode, NumberedBlock(p, s, q), at) == BlockMeaning(p, q)
    {
      NumberedBlockMeans(p, s, q, at);
    }
    FileMeansWith(Decode, ps, s);
  }

  // ------------------------------------------------------------ the registers

  lemma FoldCons(st: Registers, d: Line, ds: seq<Line>)
    requires Step(d, st).Ok?
    ensures Fold(st, [d] + ds) == Fold(Step(d, st).value, ds)
  {
    assert ([d] + ds)[0] == d;
    assert ([d] + ds)[1..] == ds;
  }

  /** One block leaves the registers reset and adds `(p, q)` exactly when `p < q`. */
  lemma BlockFold(acc: seq<(int, int)>, p: int, q: int)
    ensures Fold(Reset(acc), BlockMeaning(p, q)) == Ok(Reset(acc + if p < q then [(p, q)] else []))
  {
    var ds := BlockMeaning(p, q);
    var st := Reset(acc);
    FoldCons(st, ds[0], ds[1..]);
    FoldCons(st, ds[1], ds[2..]);
    FoldCons(st, ds[2], ds[3..]);
    var sa := Registers(p, -1, acc);
    FoldCons(sa, ds[3], ds[4..]);
    FoldCons(sa, ds[4], ds[5..]);
    FoldCons(sa, ds[5], ds[6..]);
    var sb := Registers(p, q, acc);
    FoldCons(sb, ds[6], ds[7..]);
    FoldCons(sb, ds[7], ds[8..]);
    assert ds[8..] == [];
  }

  /** The registers over a whole file collect its ascending pairs, in order. */
  lemma {:induction false} FileFold(ps: seq<(int, int)>)
    requires forall t :: 0 <= t < |ps| ==> ps[t].0 < ps[t].1
    ensures Fold(Reset([]), FileMeaning(ps)) == Ok(Reset(ps))
  {
    if |ps| == 0 {
    } else {
      var init := ps[..|ps| - 1];
      var p := ps[|ps| - 1];
      FileFold(init);
      FoldAppend(Reset([]), FileMeaning(init) + BlockMeaning(p.0, p.1), BlockMeaning(p.1, p.0));
      FoldAppend(Reset([]), FileMeaning(init), BlockMeaning(p.0, p.1));
      BlockFold(init, p.0, p.1);
      BlockFold(init + [p], p.1, p.0);
      assert init + [p] + [] == ps;
    }
  }

  /** `forces2pairs` on the forces file written for the pairs `ps` (each with
      first < second) returns exactly `ps`. */
  lemma RoundTrip(ps: seq<(int, int)>, s: string)
    requires Token(s)
    requires forall t :: 0 <= t < |ps| ==> ps[t].0 < ps[t].1
    ensures Pairs(ReadLines(Concat(GenerateForce.TrapLines(ps, s)))) == Ok(ps)
  {
    FileText(ps, s);
    FileLinesAreLines(ps, s);
    ReadLinesOfLines(FileLines(ps, s));
    FileMeans(ps, s);
    DecodeFromTop(FileLines(ps, s));
    FileFold(ps);
  }

  /** The designed pairs generate_force writes for a bonded map are the pairs
      forces2pairs reads back from its forces file, and the pairs its pairs file
      holds, line by line. */
  lemma GeneratedFileRoundTrip(bonded: GenerateForce.Dict, s: string)
    requires bonded.Valid()
    requires Token(s)
    ensures var ps := GenerateForce.Designed(GenerateForce.Sort(bonded.keys), bonded.values);
      Pairs(ReadLines(Concat(GenerateForce.TrapLines(ps, s)))) == Ok(ps)
    ensures var ps := GenerateForce.Designed(GenerateForce.Sort(bonded.keys), bonded.values);
      && |GenerateForce.PairLines(ps)| == |ps|
      && forall t :: 0 <= t < |ps| ==> GenerateForce.ParseBond(GenerateForce.PairLines(ps)[t], t) == Ok(ps[t])
  {
    var keys := GenerateForce.Sort(bonded.keys);
    GenerateForce.DesignedOrdered(keys, bonded.values);
    RoundTrip(GenerateForce.Designed(keys, bonded.values), s);
    GenerateForce.PairsFileRoundTrip(GenerateForce.Designed(keys, bonded.values));
  }
}
