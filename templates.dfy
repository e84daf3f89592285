/**
 * What `Render` does to a template seen as literal text interleaved with
 * placeholders. As long as no literal text and no value of the chain holds
 * `{{` or ends in `{` (and no value holds `$`), each `replace` swaps the
 * FIRST placeholder of its field for the value and nothing else; when every
 * field appears exactly once, nothing of the placeholder syntax is left.
 * Single braces, such as those of a TypeScript object literal, are allowed.
 */
module Templates {
  import opened JsString
  import opened Chains

  /** A template as a sequence of literal text and placeholders. */
  datatype Piece = Text(text: string) | Hole(field: Field)

  /** The text of one piece. */
  function PieceText(p: Piece): string
  {
    match p
    case Text(a) => a
    case Hole(f) => Placeholder(f)
  }

  /** The template text the pieces stand for. */
  function Flatten(ps: seq<Piece>): string
  {
    if ps == [] then "" else PieceText(ps[0]) + Flatten(ps[1..])
  }

  /**
   * Every `{` of `a` is followed, inside `a`, by a character other than `{`:
   * `a` holds no `{{` and does not end in `{`, so no placeholder can start in it.
   */
  predicate PlainText(a: string)
  {
    forall i :: 0 <= i < |a| && a[i] == '{' ==> i + 1 < |a| && a[i + 1] != '{'
  }

  /** Every literal piece is plain text. */
  ghost predicate PlainTexts(ps: seq<Piece>)
  {
    forall i :: 0 <= i < |ps| && ps[i].Text? ==> PlainText(ps[i].text)
  }

  /** A value that can neither create a placeholder nor trigger `$`-expansion. */
  predicate PlainValue(v: string)
  {
    PlainText(v) && '$' !in v
  }

  /** The pieces with the first placeholder of `f` turned into the text `v`. */
  function FillFirst(ps: seq<Piece>, f: Field, v: string): (r: seq<Piece>)
    ensures PlainTexts(ps) && PlainText(v) ==> PlainTexts(r)
  {
    if ps == [] then []
    else if ps[0] == Hole(f) then [Text(v)] + ps[1..]
    else [ps[0]] + FillFirst(ps[1..], f, v)
  }

  /** How many placeholders of `f` the pieces hold. */
  function HoleCount(ps: seq<Piece>, f: Field): nat
  {
    if ps == [] then 0 else (if ps[0] == Hole(f) then 1 else 0) + HoleCount(ps[1..], f)
  }

  /** Every placeholder of `f` turned into the text `v`. */
  function FillAll(ps: seq<Piece>, f: Field, v: string): seq<Piece>
  {
    if ps == [] then []
    else [if ps[0] == Hole(f) then Text(v) else ps[0]] + FillAll(ps[1..], f, v)
  }

  /** A piece with its placeholder, if any, turned into the chain's value. */
  function FilledPiece(p: Piece, c: ChainConfig): Piece
  {
    match p
    case Text(a) => Text(a)
    case Hole(f) => Text(Value(c, f))
  }

  /** Every placeholder turned into the chain's value for its field. */
  function Substitute(ps: seq<Piece>, c: ChainConfig): seq<Piece>
  {
    if ps == [] then [] else [FilledPiece(ps[0], c)] + Substitute(ps[1..], c)
  }

  /** Four `FillFirst` steps in the order in which `Render` replaces. */
  function FillInOrder(ps: seq<Piece>, c: ChainConfig): seq<Piece>
  {
    FillFirst(
      FillFirst(
        FillFirst(
          FillFirst(ps, MainnetName, c.mainnetName),
          MainnetChainId, c.mainnetChainId),
        TestnetChainId, c.testnetChainId),
      TestnetChainName, c.testnetChainName)
  }

  /** An index below both lengths at which two different placeholders differ. */
  function DiffIndex(f: Field, g: Field): (d: nat)
    requires f != g
    ensures d < |Placeholder(f)| && d < |Placeholder(g)|
    ensures Placeholder(f)[d] != Placeholder(g)[d]
  {
    if (f == MainnetName && g == MainnetChainId) || (f == MainnetChainId && g == MainnetName) then 9
    else if (f == TestnetChainId && g == TestnetChainName) || (f == TestnetChainName && g == TestnetChainId) then 14
    else 2
  }

  /** Past its leading `{{`, a placeholder holds no `{`. */
  lemma PlaceholderBraces(g: Field, k: nat)
    requires 2 <= k < |Placeholder(g)|
    ensures Placeholder(g)[k] != '{'
  {
    var n := Name(g);
    assert Placeholder(g)[k] == (n + "}}")[k - 2];
    assert forall i :: 0 <= i < |n| ==> n[i] != '{';
  }

  /** No placeholder holds a `$`, so none is expanded when used as a replacement. */
  lemma PlaceholderHasNoDollar(f: Field)
    ensures '$' !in Placeholder(f)
  {
    var n := Name(f);
    assert forall i :: 0 <= i < |n| ==> n[i] != '$';
    assert Placeholder(f) == "{{" + n + "}}";
  }

  /**
   * A placeholder of `f` cannot start inside the placeholder of another
   * field `g`: placeholders never overlap one another.
   */
  lemma NoStrayOccurrence(f: Field, g: Field, t: string, k: nat)
    requires f != g && k < |Placeholder(g)|
    ensures !OccursAt(Placeholder(g) + t, Placeholder(f), k)
  {
    var p, q := Placeholder(f), Placeholder(g);
    var s := q + t;
    if k + |p| <= |s| {
      var w := s[k..k + |p|];
      if k == 0 {
        var d := DiffIndex(f, g);
        assert w[d] == s[d] == q[d] != p[d];
      } else if k == 1 {
        PlaceholderBraces(g, 2);
        assert w[1] == q[2] != p[1];
      } else {
        PlaceholderBraces(g, k);
        assert w[0] == q[k] != p[0];
      }
    }
  }

  /** No placeholder starts inside plain text, whatever follows it. */
  lemma NoOccurrenceInText(a: string, t: string, f: Field, k: nat)
    requires PlainText(a) && k < |a|
    ensures !OccursAt(a + t, Placeholder(f), k)
  {
    var p := Placeholder(f);
    if k + |p| <= |a + t| {
      var w := (a + t)[k..k + |p|];
      assert p[0] == '{' && p[1] == '{';
      if a[k] == '{' {
        assert w[1] == a[k + 1] != p[1];
      } else {
        assert w[0] == a[k] != p[0];
      }
    }
  }

  /** Plain text followed by plain text is plain text. */
  lemma PlainTextConcat(a: string, b: string)
    requires PlainText(a) && PlainText(b)
    ensures PlainText(a + b)
  {
    forall i | 0 <= i < |a + b| && (a + b)[i] == '{'
      ensures i + 1 < |a + b| && (a + b)[i + 1] != '{'
    {
      if i < |a| {
        assert a[i] == '{';
      } else {
        assert b[i - |a|] == '{';
      }
    }
  }

  /** Dropping the first piece keeps the literal text plain. */
  lemma PlainTextsTail(ps: seq<Piece>)
    requires ps != [] && PlainTexts(ps)
    ensures PlainTexts(ps[1..])
  {
    forall i | 0 <= i < |ps[1..]| && ps[1..][i].Text? ensures PlainText(ps[1..][i].text) {
      assert ps[1..][i] == ps[i + 1];
    }
  }

  /** `Flatten` of pieces that start with text `a`. */
  lemma ReplaceAfterText(ps: seq<Piece>, f: Field, v: string)
    requires ps != [] && ps[0].Text? && PlainTexts(ps) && PlainValue(v)
    ensures Replace(Flatten(ps), Placeholder(f), v)
            == ps[0].text + Replace(Flatten(ps[1..]), Placeholder(f), v)
  {
    var a, rest := ps[0].text, Flatten(ps[1..]);
    assert PlainText(a);
    forall k: nat | k < |a| ensures !OccursAt(a + rest, Placeholder(f), k) {
      NoOccurrenceInText(a, rest, f, k);
    }
    ReplaceAfterPrefix(a, rest, Placeholder(f), v);
  }

  /** `Flatten` of pieces that start with a placeholder of another field. */
  lemma ReplaceAfterOtherHole(ps: seq<Piece>, f: Field, v: string)
    requires ps != [] && ps[0].Hole? && ps[0].field != f && PlainValue(v)
    ensures Replace(Flatten(ps), Placeholder(f), v)
            == Placeholder(ps[0].field) + Replace(Flatten(ps[1..]), Placeholder(f), v)
  {
    var q, rest := Placeholder(ps[0].field), Flatten(ps[1..]);
    forall k: nat | k < |q| ensures !OccursAt(q + rest, Placeholder(f), k) {
      NoStrayOccurrence(f, ps[0].field, rest, k);
    }
    ReplaceAfterPrefix(q, rest, Placeholder(f), v);
  }

  /** `Flatten` of pieces that start with a placeholder of `f` itself. */
  lemma ReplaceAtHole(ps: seq<Piece>, f: Field, v: string)
    requires ps != [] && ps[0] == Hole(f) && PlainValue(v)
    ensures Replace(Flatten(ps), Placeholder(f), v) == v + Flatten(ps[1..])
  {
    assert Flatten(ps) == Placeholder(f) + Flatten(ps[1..]);
    ReplaceAtStart(Placeholder(f), Flatten(ps[1..]), v);
  }

  /**
   * One `replace` of `Render`, on a template of plain text and placeholders
   * with a plain value: the first placeholder of `f` becomes the value, and
   * every other piece, later placeholders of `f` included, stays.
   */
  lemma {:induction false} ReplaceFillsFirst(ps: seq<Piece>, f: Field, v: string)
    requires PlainTexts(ps) && PlainValue(v)
    ensures Replace(Flatten(ps), Placeholder(f), v) == Flatten(FillFirst(ps, f, v))
  {
    if ps == [] {
      assert forall k: nat :: !OccursAt("", Placeholder(f), k);
    } else if ps[0] == Hole(f) {
      ReplaceAtHole(ps, f, v);
    } else {
      PlainTextsTail(ps);
      ReplaceFillsFirst(ps[1..], f, v);
      if ps[0].Text? {
        ReplaceAfterText(ps, f, v);
      } else {
        ReplaceAfterOtherHole(ps, f, v);
      }
    }
  }

  /**
   * `Render` on a template of plain text and placeholders, with plain values:
   * each of the four steps fills the first remaining placeholder of its field.
   */
  lemma RenderFillsInOrder(ps: seq<Piece>, c: ChainConfig)
    requires PlainTexts(ps)
    requires forall f: Field :: PlainValue(Value(c, f))
    ensures Render(Flatten(ps), c) == Flatten(FillInOrder(ps, c))
  {
    assert PlainValue(Value(c, MainnetName)) && PlainValue(Value(c, MainnetChainId));
    assert PlainValue(Value(c, TestnetChainId)) && PlainValue(Value(c, TestnetChainName));
    var p1 := FillFirst(ps, MainnetName, c.mainnetName);
    var p2 := FillFirst(p1, MainnetChainId, c.mainnetChainId);
    var p3 := FillFirst(p2, TestnetChainId, c.testnetChainId);
    ReplaceFillsFirst(ps, MainnetName, c.mainnetName);
    ReplaceFillsFirst(p1, MainnetChainId, c.mainnetChainId);
    ReplaceFillsFirst(p2, TestnetChainId, c.testnetChainId);
    ReplaceFillsFirst(p3, TestnetChainName, c.testnetChainName);
  }

  /** With a single placeholder of `f`, filling the first one fills them all. */
  lemma {:induction false} FillFirstOfSingle(ps: seq<Piece>, f: Field, v: string)
    requires HoleCount(ps, f) <= 1
    ensures FillFirst(ps, f, v) == FillAll(ps, f, v)
  {
    if ps != [] {
      if ps[0] == Hole(f) {
        NoHoleFillAll(ps[1..], f, v);
      } else {
        FillFirstOfSingle(ps[1..], f, v);
      }
    }
  }

  /** Filling a field that has no placeholder changes nothing. */
  lemma {:induction false} NoHoleFillAll(ps: seq<Piece>, f: Field, v: string)
    requires HoleCount(ps, f) == 0
    ensures FillAll(ps, f, v) == ps
  {
    if ps != [] {
      NoHoleFillAll(ps[1..], f, v);
    }
  }

  /** Filling `f` leaves the count of every other field as it was. */
  lemma {:induction false} FillAllKeepsOtherCounts(ps: seq<Piece>, f: Field, v: string, g: Field)
    requires f != g
    ensures HoleCount(FillAll(ps, f, v), g) == HoleCount(ps, g)
  {
    if ps != [] {
      FillAllKeepsOtherCounts(ps[1..], f, v, g);
    }
  }

  /** Filling all four fields in `Render`'s order is substituting every placeholder. */
  lemma {:induction false} FillAllFour(ps: seq<Piece>, c: ChainConfig)
    ensures FillAll(FillAll(FillAll(FillAll(ps, MainnetName, c.mainnetName),
              MainnetChainId, c.mainnetChainId), TestnetChainId, c.testnetChainId),
              TestnetChainName, c.testnetChainName)
            == Substitute(ps, c)
  {
    if ps != [] {
      FillAllFour(ps[1..], c);
    }
  }

  /** Plain text with every placeholder turned into a plain value is plain text. */
  lemma {:induction false} SubstitutedPlain(ps: seq<Piece>, c: ChainConfig)
    requires PlainTexts(ps)
    requires forall f: Field :: PlainValue(Value(c, f))
    ensures PlainText(Flatten(Substitute(ps, c)))
  {
    if ps != [] {
      PlainTextsTail(ps);
      SubstitutedPlain(ps[1..], c);
      var head := PieceText(FilledPiece(ps[0], c));
      assert PlainText(head) by {
        if ps[0].Hole? { assert PlainValue(Value(c, ps[0].field)); }
      }
      assert Flatten(Substitute(ps, c)) == head + Flatten(Substitute(ps[1..], c));
      PlainTextConcat(head, Flatten(Substitute(ps[1..], c)));
    }
  }

  /**
   * With each field named exactly once, the four first-placeholder fills in
   * `Render`'s order substitute every placeholder.
   */
  lemma FillInOrderSubstitutes(ps: seq<Piece>, c: ChainConfig)
    requires forall f: Field :: HoleCount(ps, f) == 1
    ensures FillInOrder(ps, c) == Substitute(ps, c)
  {
    var v1, v2, v3, v4 := c.mainnetName, c.mainnetChainId, c.testnetChainId, c.testnetChainName;
    assert HoleCount(ps, MainnetName) == 1 && HoleCount(ps, MainnetChainId) == 1;
    assert HoleCount(ps, TestnetChainId) == 1 && HoleCount(ps, TestnetChainName) == 1;
    FillFirstOfSingle(ps, MainnetName, v1);
    var p1 := FillAll(ps, MainnetName, v1);
    FillAllKeepsOtherCounts(ps, MainnetName, v1, MainnetChainId);
    FillAllKeepsOtherCounts(ps, MainnetName, v1, TestnetChainId);
    FillAllKeepsOtherCounts(ps, MainnetName, v1, TestnetChainName);
    FillFirstOfSingle(p1, MainnetChainId, v2);
    var p2 := FillAll(p1, MainnetChainId, v2);
    FillAllKeepsOtherCounts(p1, MainnetChainId, v2, TestnetChainId);
    FillAllKeepsOtherCounts(p1, MainnetChainId, v2, TestnetChainName);
    FillFirstOfSingle(p2, TestnetChainId, v3);
    var p3 := FillAll(p2, TestnetChainId, v3);
    FillAllKeepsOtherCounts(p2, TestnetChainId, v3, TestnetChainName);
    FillFirstOfSingle(p3, TestnetChainName, v4);
    FillAllFour(ps, c);
  }

  /** Plain text holds no placeholder. */
  lemma NoPlaceholderInPlainText(r: string)
    requires PlainText(r)
    ensures forall f: Field :: !Occurs(r, Placeholder(f))
  {
    forall f: Field, k: nat ensures !OccursAt(r, Placeholder(f), k) {
      if k < |r| {
        NoOccurrenceInText(r, "", f, k);
        assert r + "" == r;
      }
    }
  }

  /**
   * The rendered config of a template that names each of the four fields
   * exactly once, with plain text and plain values, is the template with every
   * placeholder replaced by the chain's value, and no placeholder is left in it.
   */
  lemma RenderComplete(ps: seq<Piece>, c: ChainConfig)
    requires PlainTexts(ps)
    requires forall f: Field :: PlainValue(Value(c, f))
    requires forall f: Field :: HoleCount(ps, f) == 1
    ensures Render(Flatten(ps), c) == Flatten(Substitute(ps, c))
    ensures forall f: Field :: !Occurs(Render(Flatten(ps), c), Placeholder(f))
  {
    RenderFillsInOrder(ps, c);
    FillInOrderSubstitutes(ps, c);
    SubstitutedPlain(ps, c);
    NoPlaceholderInPlainText(Flatten(Substitute(ps, c)));
  }

  /** The literal text of a TypeScript object literal: single braces only. */
  lemma ObjectLiteralTextPlain()
    ensures PlainText("export const chain = {\n  mainnet: { name: \"")
    ensures PlainText(" },\n  testnet: { id: ")
    ensures PlainText("\" },\n};\n")
  {
    var a0 := "export const chain = {\n  mainnet: { name: \"";
    assert forall i :: 0 <= i < |a0| && a0[i] == '{' ==> i == 21 || i == 34;
    var a2 := " },\n  testnet: { id: ";
    assert forall i :: 0 <= i < |a2| && a2[i] == '{' ==> i == 15;
  }

  /**
   * A TypeScript module whose object literals wrap the four placeholders is
   * plain text around them (its braces are single and none stands right
   * before a placeholder), so it renders to the module with the four values in
   * place and no placeholder left.
   */
  lemma ObjectLiteralTemplate(ps: seq<Piece>, c: ChainConfig)
    requires ps == [Text("export const chain = {\n  mainnet: { name: \""), Hole(MainnetName),
                    Text("\", id: "), Hole(MainnetChainId),
                    Text(" },\n  testnet: { id: "), Hole(TestnetChainId),
                    Text(", name: \""), Hole(TestnetChainName), Text("\" },\n};\n")]
    requires forall f: Field :: PlainValue(Value(c, f))
    ensures PlainTexts(ps)
    ensures Render(Flatten(ps), c) == Flatten(Substitute(ps, c))
    ensures forall f: Field :: !Occurs(Render(Flatten(ps), c), Placeholder(f))
  {
    ObjectLiteralTextPlain();
    assert PlainText("\", id: ") && PlainText(", name: \"");
    forall g: Field ensures HoleCount(ps, g) == 1 {
      var i := match g
        case MainnetName => 1
        case MainnetChainId => 3
        case TestnetChainId => 5
        case TestnetChainName => 7;
      HoleCountUnique(ps, g, i);
    }
    RenderComplete(ps, c);
  }

  /** The pieces of a template naming the four fields in `Render`'s order. */
  function FourSlots(a0: string, a1: string, a2: string, a3: string): seq<Piece>
  {
    [Text(a0), Hole(MainnetName), Text(a1), Hole(MainnetChainId),
     Text(a2), Hole(TestnetChainId), Text(a3), Hole(TestnetChainName)]
  }

  /** `Flatten` of a suffix peels off its first piece. */
  lemma {:induction false} FlattenFrom(ps: seq<Piece>, i: nat)
    requires i < |ps|
    ensures Flatten(ps[i..]) == PieceText(ps[i]) + Flatten(ps[i + 1..])
  {
    assert ps[i..][1..] == ps[i + 1..];
  }

  /** `Flatten` of eight pieces, written out. */
  lemma {:induction false} FlattenEight(ps: seq<Piece>)
    requires |ps| == 8
    ensures Flatten(ps) == PieceText(ps[0]) + PieceText(ps[1]) + PieceText(ps[2]) + PieceText(ps[3])
                           + PieceText(ps[4]) + PieceText(ps[5]) + PieceText(ps[6]) + PieceText(ps[7])
  {
    var t0, t1, t2, t3 := PieceText(ps[0]), PieceText(ps[1]), PieceText(ps[2]), PieceText(ps[3]);
    var t4, t5, t6, t7 := PieceText(ps[4]), PieceText(ps[5]), PieceText(ps[6]), PieceText(ps[7]);
    assert Flatten(ps[7..]) == t7 by {
      FlattenFrom(ps, 7);
      assert ps[8..] == [];
    }
    assert Flatten(ps[6..]) == t6 + t7 by { FlattenFrom(ps, 6); }
    assert Flatten(ps[5..]) == t5 + (t6 + t7) by { FlattenFrom(ps, 5); }
    assert Flatten(ps[4..]) == t4 + (t5 + (t6 + t7)) by { FlattenFrom(ps, 4); }
    assert Flatten(ps[3..]) == t3 + (t4 + (t5 + (t6 + t7))) by { FlattenFrom(ps, 3); }
    assert Flatten(ps[2..]) == t2 + (t3 + (t4 + (t5 + (t6 + t7)))) by { FlattenFrom(ps, 2); }
    assert Flatten(ps[1..]) == t1 + (t2 + (t3 + (t4 + (t5 + (t6 + t7))))) by { FlattenFrom(ps, 1); }
    assert Flatten(ps) == t0 + (t1 + (t2 + (t3 + (t4 + (t5 + (t6 + t7)))))) by {
      FlattenFrom(ps, 0);
      assert ps[0..] == ps;
    }
  }

  lemma FourSlotsText(a0: string, a1: string, a2: string, a3: string)
    ensures Flatten(FourSlots(a0, a1, a2, a3))
            == a0 + Placeholder(MainnetName) + a1 + Placeholder(MainnetChainId) + a2
               + Placeholder(TestnetChainId) + a3 + Placeholder(TestnetChainName)
  {
    FlattenEight(FourSlots(a0, a1, a2, a3));
  }

  /** Pieces none of which is a placeholder of `g` count no hole of `g`. */
  lemma {:induction false} HoleCountZero(ps: seq<Piece>, g: Field)
    requires forall j :: 0 <= j < |ps| ==> ps[j] != Hole(g)
    ensures HoleCount(ps, g) == 0
  {
    if ps != [] {
      HoleCountZero(ps[1..], g);
    }
  }

  /** Pieces with exactly one placeholder of `g`, at `i`, count one hole of `g`. */
  lemma {:induction false} HoleCountUnique(ps: seq<Piece>, g: Field, i: nat)
    requires i < |ps| && ps[i] == Hole(g)
    requires forall j :: 0 <= j < |ps| && j != i ==> ps[j] != Hole(g)
    ensures HoleCount(ps, g) == 1
  {
    if i == 0 {
      HoleCountZero(ps[1..], g);
    } else {
      HoleCountUnique(ps[1..], g, i - 1);
    }
  }

  lemma FourSlotsCounts(a0: string, a1: string, a2: string, a3: string, g: Field)
    ensures HoleCount(FourSlots(a0, a1, a2, a3), g) == 1
  {
    var i := match g
      case MainnetName => 1
      case MainnetChainId => 3
      case TestnetChainId => 5
      case TestnetChainName => 7;
    HoleCountUnique(FourSlots(a0, a1, a2, a3), g, i);
  }

  /** `Substitute` fills every piece in place. */
  lemma {:induction false} SubstitutePointwise(ps: seq<Piece>, c: ChainConfig)
    ensures |Substitute(ps, c)| == |ps|
    ensures forall i :: 0 <= i < |ps| ==> Substitute(ps, c)[i] == FilledPiece(ps[i], c)
  {
    if ps != [] {
      SubstitutePointwise(ps[1..], c);
    }
  }

  /** Substituting a chain into the four slots turns each hole into its value. */
  lemma FourSlotsSubstituted(a0: string, a1: string, a2: string, a3: string, c: ChainConfig)
    ensures Substitute(FourSlots(a0, a1, a2, a3), c)
            == [Text(a0), Text(c.mainnetName), Text(a1), Text(c.mainnetChainId),
                Text(a2), Text(c.testnetChainId), Text(a3), Text(c.testnetChainName)]
  {
    SubstitutePointwise(FourSlots(a0, a1, a2, a3), c);
  }

  lemma FourSlotsFilled(a0: string, a1: string, a2: string, a3: string, c: ChainConfig)
    ensures Flatten(Substitute(FourSlots(a0, a1, a2, a3), c))
            == a0 + c.mainnetName + a1 + c.mainnetChainId + a2 + c.testnetChainId + a3 + c.testnetChainName
  {
    FourSlotsSubstituted(a0, a1, a2, a3, c);
    FlattenEight(Substitute(FourSlots(a0, a1, a2, a3), c));
  }

  /**
   * A template that names the four fields once each, in `Render`'s order and
   * separated by plain text, renders to that text with the four values
   * in place of the placeholders.
   */
  lemma RenderFourSlots(a0: string, a1: string, a2: string, a3: string, c: ChainConfig)
    requires PlainText(a0) && PlainText(a1) && PlainText(a2) && PlainText(a3)
    requires forall f: Field :: PlainValue(Value(c, f))
    ensures Render(a0 + Placeholder(MainnetName) + a1 + Placeholder(MainnetChainId) + a2
                   + Placeholder(TestnetChainId) + a3 + Placeholder(TestnetChainName), c)
            == a0 + c.mainnetName + a1 + c.mainnetChainId + a2 + c.testnetChainId + a3 + c.testnetChainName
  {
    var ps := FourSlots(a0, a1, a2, a3);
    FourSlotsText(a0, a1, a2, a3);
    forall g: Field ensures HoleCount(ps, g) == 1 {
      FourSlotsCounts(a0, a1, a2, a3, g);
    }
    RenderComplete(ps, c);
    FourSlotsFilled(a0, a1, a2, a3, c);
  }

  /** The example chain `sepolia` of the registry. */
  function Sepolia(): ChainConfig
  {
    ChainConfig("sepolia", "Ethereum", "1", "11155111", "Sepolia")
  }

  /** The values of `sepolia` are plain. */
  lemma SepoliaPlain()
    ensures forall f: Field :: PlainValue(Value(Sepolia(), f))
  {
    assert PlainValue("Ethereum");
    assert PlainValue("1");
    assert PlainValue("11155111");
    assert PlainValue("Sepolia");
  }

  /** The four placeholders, spelled out. */
  lemma PlaceholdersSpelled()
    ensures Placeholder(MainnetName) == "{{mainnetName}}"
    ensures Placeholder(MainnetChainId) == "{{mainnetChainId}}"
    ensures Placeholder(TestnetChainId) == "{{testnetChainId}}"
    ensures Placeholder(TestnetChainName) == "{{testnetChainName}}"
  {
    assert Placeholder(MainnetName) == "{{mainnetName}}" by {}
    assert Placeholder(MainnetChainId) == "{{mainnetChainId}}" by {}
    assert Placeholder(TestnetChainId) == "{{testnetChainId}}" by {}
    assert Placeholder(TestnetChainName) == "{{testnetChainName}}" by {}
  }

  /**
   * A template naming each field once renders to the chain's values:
   * `chain={{mainnetName}}/{{mainnetChainId}}/{{testnetChainId}}/{{testnetChainName}}`
   * becomes `chain=Ethereum/1/11155111/Sepolia` for `sepolia`.
   */
  lemma RenderExample(template: string)
    requires template == "chain=" + "{{mainnetName}}" + "/" + "{{mainnetChainId}}"
                         + "/" + "{{testnetChainId}}" + "/" + "{{testnetChainName}}"
    ensures Render(template, Sepolia()) == "chain=" + "Ethereum" + "/" + "1" + "/" + "11155111" + "/" + "Sepolia"
  {
    var c := Sepolia();
    SepoliaPlain();
    PlaceholdersSpelled();
    RenderFourSlots("chain=", "/", "/", "/", c);
  }

  /** Filling a field without a placeholder changes nothing. */
  lemma {:induction false} NoHoleFillFirst(ps: seq<Piece>, f: Field, v: string)
    requires HoleCount(ps, f) == 0
    ensures FillFirst(ps, f, v) == ps
  {
    if ps != [] {
      NoHoleFillFirst(ps[1..], f, v);
    }
  }

  /** The placeholder of one field never occurs in the placeholder of another. */
  lemma OtherPlaceholderAbsent(g: Field, f: Field)
    requires f != g
    ensures !Occurs(Placeholder(g), Placeholder(f))
  {
    var q, p := Placeholder(g), Placeholder(f);
    forall k: nat | k < |q| ensures !OccursAt(q, p, k) {
      NoStrayOccurrence(f, g, "", k);
      assert q + "" == q;
    }
  }

  /** A `replace` of another field's placeholder leaves a lone placeholder as it is, whatever the value. */
  lemma ReplaceOtherOnPlaceholder(g: Field, f: Field, v: string)
    requires f != g
    ensures Replace(Placeholder(g), Placeholder(f), v) == Placeholder(g)
  {
    OtherPlaceholderAbsent(g, f);
  }

  /** A `replace` of a lone placeholder by its own field gives the replacement. */
  lemma ReplaceOwnPlaceholder(f: Field, v: string)
    requires '$' !in v
    ensures Replace(Placeholder(f), Placeholder(f), v) == v
  {
    var p := Placeholder(f);
    assert FirstOccurrence(p, p, 0) by { assert p[0..|p|] == p; }
    assert p[|p|..] == "";
  }

  /**
   * A value that is itself a placeholder of a later step is filled by that
   * step: the replacements are applied one after the other, in order.
   */
  lemma RenderRefillsEarlierValue(template: string, c: ChainConfig)
    requires template == Placeholder(MainnetName)
    requires c.mainnetName == Placeholder(TestnetChainName)
    requires '$' !in c.testnetChainName
    ensures Render(template, c) == c.testnetChainName
  {
    var tcn := Placeholder(TestnetChainName);
    var s1 := Replace(template, Placeholder(MainnetName), c.mainnetName);
    assert s1 == tcn by {
      PlaceholderHasNoDollar(TestnetChainName);
      ReplaceOwnPlaceholder(MainnetName, tcn);
    }
    var s2 := Replace(s1, Placeholder(MainnetChainId), c.mainnetChainId);
    assert s2 == tcn by { ReplaceOtherOnPlaceholder(TestnetChainName, MainnetChainId, c.mainnetChainId); }
    var s3 := Replace(s2, Placeholder(TestnetChainId), c.testnetChainId);
    assert s3 == tcn by { ReplaceOtherOnPlaceholder(TestnetChainName, TestnetChainId, c.testnetChainId); }
    ReplaceOwnPlaceholder(TestnetChainName, c.testnetChainName);
  }

  /**
   * A value that is a placeholder of an EARLIER step is not filled: it is
   * left in the output as it is, so the rendered config can still hold
   * placeholder syntax.
   */
  lemma RenderLeavesLaterValue(template: string, c: ChainConfig)
    requires template == Placeholder(TestnetChainName)
    requires c.testnetChainName == Placeholder(MainnetName)
    ensures Render(template, c) == c.testnetChainName
  {
    ReplacesKeepLonePlaceholder(TestnetChainName, MainnetName, MainnetChainId, TestnetChainId,
                                c.mainnetName, c.mainnetChainId, c.testnetChainId);
    PlaceholderHasNoDollar(MainnetName);
    ReplaceOwnPlaceholder(TestnetChainName, c.testnetChainName);
  }

  /** Three `replace` calls of other fields leave a lone placeholder as it is. */
  lemma ReplacesKeepLonePlaceholder(g: Field, f1: Field, f2: Field, f3: Field, v1: string, v2: string, v3: string)
    requires f1 != g && f2 != g && f3 != g
    ensures Replace(Replace(Replace(Placeholder(g), Placeholder(f1), v1), Placeholder(f2), v2), Placeholder(f3), v3)
            == Placeholder(g)
  {
    ReplaceOtherOnPlaceholder(g, f1, v1);
    ReplaceOtherOnPlaceholder(g, f2, v2);
    ReplaceOtherOnPlaceholder(g, f3, v3);
  }

  /** A `replace` of another field leaves plain text followed by a placeholder as it is. */
  lemma ReplaceOtherAfterText(a: string, g: Field, f: Field, v: string)
    requires f != g && PlainText(a)
    ensures Replace(a + Placeholder(g), Placeholder(f), v) == a + Placeholder(g)
  {
    forall k: nat | k < |a| ensures !OccursAt(a + Placeholder(g), Placeholder(f), k) {
      NoOccurrenceInText(a, Placeholder(g), f, k);
    }
    OtherPlaceholderAbsent(g, f);
    NoOccurrenceAfterPrefix(a, Placeholder(g), Placeholder(f));
  }

  /**
   * Only the first placeholder of a field is replaced: in a template naming
   * `mainnetName` twice, the second `{{mainnetName}}` reaches the output.
   */
  lemma RenderKeepsSecondPlaceholder(template: string, a: string, c: ChainConfig)
    requires template == Placeholder(MainnetName) + a + Placeholder(MainnetName)
    requires PlainText(a) && PlainValue(c.mainnetName)
    ensures Render(template, c) == c.mainnetName + a + Placeholder(MainnetName)
  {
    var mn := Placeholder(MainnetName);
    var v1 := c.mainnetName;
    var s1 := Replace(template, mn, v1);
    assert s1 == (v1 + a) + mn by {
      assert template == mn + (a + mn);
      ReplaceAtStart(mn, a + mn, v1);
    }
    PlainTextConcat(v1, a);
    var s2 := Replace(s1, Placeholder(MainnetChainId), c.mainnetChainId);
    assert s2 == s1 by { ReplaceOtherAfterText(v1 + a, MainnetName, MainnetChainId, c.mainnetChainId); }
    var s3 := Replace(s2, Placeholder(TestnetChainId), c.testnetChainId);
    assert s3 == s1 by { ReplaceOtherAfterText(v1 + a, MainnetName, TestnetChainId, c.testnetChainId); }
    ReplaceOtherAfterText(v1 + a, MainnetName, TestnetChainName, c.testnetChainName);
  }
}
